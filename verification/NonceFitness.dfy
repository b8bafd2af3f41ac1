/** ecdsa_sign_digest (ecdsa.c) rejects a nonce exactly when there is no signature for it that the caller takes. */
module NonceFitness {
  import opened Words
  import opened Digits
  import opened Congruence
  import opened BignumBasics
  import opened BignumConvert
  import opened EllipticCurve
  import opened Ecdsa
  import opened Rfc6979

  /** The 64 bytes are a signature for the nonce, and the caller takes it. */
  ghost predicate Accepted(g: int -> Point, k: int, z: int, d: int, n: int, canonical: (byte, seq<byte>) -> bool,
                           rec: byte, sig: seq<byte>)
    requires n > 0
  {
    |sig| == 64 && Signature(g, k, z, d, n, BeValue(sig[0..32]), BeValue(sig[32..64]), rec) && canonical(rec, sig)
  }

  /** Of s0 and n - s0 the one in the lower half, and whether it is the second. */
  lemma LowHalf(s0: int, n: int) returns (s: int, flip: bool)
    requires 0 < s0 < n && n % 2 == 1
    ensures 0 < s && 2 * s < n && s == if flip then n - s0 else s0
  {
    flip := 2 * s0 > n;
    s := if flip then n - s0 else s0;
  }

  /** The signing equation has a solution that is not zero. */
  lemma Solved(k: int, z: int, r: int, d: int, n: int) returns (s: int)
    requires Prime(n) && 0 < k < n && (z + r * d) % n != 0
    ensures 0 < s < n && SignsFor(s, k, z, r, d, n)
  {
    var v := z + r * d;
    SmallResidue(k, n);
    PrimeCoprime(k, n);
    var y := InverseExists(k, n);
    s := (v * y) % n;
    hide Prime, Coprime, Cong;
    DivMod(v * y, n);
    Residue(v * y, n);
    Same(k, n);
    Same(v, n);
    Mul(s, v * y, k, k, n);
    Mul(v, v, k * y, 1, n);
    Regroup(v, y, k);
    Trans(s * k, (v * y) * k, v * 1, n);
    if s == 0 {
      ZeroTimes(s, k, v, n);
      assert false;
    }
  }

  lemma Regroup(v: int, y: int, k: int)
    ensures (v * y) * k == v * (k * y)
  {
  }

  lemma ZeroTimes(s: int, k: int, v: int, n: int)
    requires n > 0 && s == 0 && Cong(s * k, v, n)
    ensures v % n == 0
  {
    Sym(s * k, v, n);
  }

  /** A nonce that is in range and leads to no zero has a signature. */
  lemma SignatureExists(g: int -> Point, k: int, z: int, d: int, n: int) returns (r: int, s: int, rec: byte)
    requires Prime(n) && n % 2 == 1 && 0 < k < n && g(k).Affine? && 0 <= g(k).x < 2 * n
    requires g(k).x % n != 0 && (z + g(k).x % n * d) % n != 0
    ensures Signature(g, k, z, d, n, r, s, rec)
  {
    var x, y := g(k).x, g(k).y;
    var c: nat := if x < n then 0 else 1;
    r := x - c * n;
    hide Prime, SignsFor, Signature;
    DivModUnique(x, n, c, r);
    var s0 := Solved(k, z, r, d, n);
    var flip;
    s, flip := LowHalf(s0, n);
    var rec0 := 2 * c + y % 2;
    rec := if flip then 2 * c + (1 - y % 2) else rec0;
    SignatureFound(g, k, z, d, n, x, y, r, s0, s, rec0, rec);
  }

  /** And it can be written down. */
  lemma SignatureBytes(g: int -> Point, k: int, z: int, d: int, n: int, r: int, s: int, rec: byte)
      returns (sig: seq<byte>)
    requires 0 < n <= TWO256 && Signature(g, k, z, d, n, r, s, rec)
    ensures |sig| == 64 && Signature(g, k, z, d, n, BeValue(sig[0..32]), BeValue(sig[32..64]), rec)
  {
    sig := Octets(r, 32) + Octets(s, 32);
    assert sig[0..32] == Octets(r, 32) && sig[32..64] == Octets(s, 32);
    assert 0 <= r < n && 0 <= s < n;
    hide Signature, BeValue, Octets, Weight;
    ThirtyTwoBytes();
    OctetsValue(r, 32);
    OctetsValue(s, 32);
  }

  lemma ThirtyTwoBytes()
    ensures Weight(0x100, 32) == TWO256
  {
    WeightRegroup(8);
    assert Weight(TWO32, 8) == TWO256;
  }

  lemma RejectedExactly(g: int -> Point, k: nat, z: int, d: int, n: int, canonical: (byte, seq<byte>) -> bool)
    requires Prime(n) && n % 2 == 1 && n <= TWO256
    requires 0 < k < n ==> g(k).Affine? && 0 <= g(k).x < 2 * n
    ensures Rejected(g, k, z, d, n, canonical) <==>
      !exists rec: byte, sig: seq<byte> :: Accepted(g, k, z, d, n, canonical, rec, sig)
  {
    if rec: byte, sig: seq<byte> :| Accepted(g, k, z, d, n, canonical, rec, sig) {
      hide Prime, Signature, BeValue;
      AcceptedNotRejected(g, k, z, d, n, canonical, rec, sig);
    } else if !Rejected(g, k, z, d, n, canonical) {
      hide Prime, Signature, BeValue;
      var r, s, rec := SignatureExists(g, k, z, d, n);
      var sig := SignatureBytes(g, k, z, d, n, r, s, rec);
      assert !Refused(g, k, z, d, n, canonical, rec, sig);
      assert Accepted(g, k, z, d, n, canonical, rec, sig);
    }
  }
}
