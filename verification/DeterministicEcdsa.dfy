/** ecdsa_sign_digest (ecdsa.c) as it is built by default: the nonces come from the generator of RFC 6979. */
module DeterministicEcdsa {
  import opened Words
  import opened BignumBasics
  import opened BignumConvert
  import opened Congruence
  import opened EllipticCurve
  import opened CurvePoints
  import opened WindowMultiply
  import opened CombMultiply
  import opened Ecdsa
  import opened Sha256
  import opened HmacDrbg
  import opened Rfc6979

  /** Blinding factors and Jacobian noise for every attempt. */
  ghost predicate Blinded(blind: nat -> seq<word>, noise: nat -> seq<word>, p: int, n: int)
  {
    forall i: nat :: Drawn(blind(i), n) && Drawn(noise(i), p)
  }

  lemma BlindedAt(blind: nat -> seq<word>, noise: nat -> seq<word>, p: int, n: int, i: nat)
    requires Blinded(blind, noise, p, n)
    ensures Drawn(blind(i), n) && Drawn(noise(i), p)
  {
  }

  lemma NonceIsCandidate(f: Compression, iv: seq<word>, x: seq<byte>, h: seq<byte>, i: nat)
    requires Compresses(f) && |iv| == 8 && |x| == 32 && |h| == 32
    ensures HmacDrbg.Proper(Seeded(f, iv, x, h))
    ensures Nonce(f, iv, x, h, i) == BeValue(Candidate(f, iv, Nth(f, iv, Seeded(f, iv, x, h), i)))
    ensures Next(f, iv, Nth(f, iv, Seeded(f, iv, x, h), i)) == Nth(f, iv, Seeded(f, iv, x, h), i + 1)
  {
    SeededProper(f, iv, x, h);
  }

  /** One attempt with the next candidate of the generator. */
  method NextAttempt(curve: Curve, k: array<word>, rng: HmacDrbgCtx, blind: seq<word>, noise: seq<word>,
                     privKey: array<byte>, z: array<word>, sig: array<byte>,
                     canonical: (byte, seq<byte>) -> bool, ghost g: int -> Point, ghost s: State)
      returns (ok: bool, rec: byte)
    requires Ready(curve, g) && Setting(curve, g) && rng.Holds(s)
    requires {k, rng.odig, rng.idig, rng.v} !! {curve.prime, curve.order, curve.orderHalf, z}
    requires Clear(curve.cp, k) && Clear(curve.cp, rng.odig) && Clear(curve.cp, rng.idig) && Clear(curve.cp, rng.v)
    requires k.Length == 9 && k !in {rng.odig, rng.idig, rng.v}
    requires Drawn(blind, Val(curve.order)) && Drawn(noise, Val(curve.prime))
    requires Norm(z) && Val(z) < TWO256 && privKey.Length >= 32 && sig.Length >= 64 && sig != privKey
    modifies k, rng.odig, rng.idig, rng.v, sig
    ensures rng.Holds(Next(rng.compress, rng.iv, s))
    ensures ok ==> canonical(rec, sig[0..64])
    ensures ok ==> Signature(g, BeValue(Candidate(rng.compress, rng.iv, s)), Val(z), BeValue(privKey[0..32]),
                             Val(curve.order), BeValue(sig[0..32]), BeValue(sig[32..64]), rec)
    ensures !ok ==> Rejected(g, BeValue(Candidate(rng.compress, rng.iv, s)), Val(z), BeValue(privKey[0..32]),
                             Val(curve.order), canonical)
  {
    hide Val, Norm, BeValue, Signature, Rejected, Ready, Setting, HmacDrbgCtx.Holds, Candidate, Next, Drawn;
    GenerateK(k, rng, s);
    ok, rec := AttemptWith(curve, k, blind, noise, privKey, z, sig, canonical, g);
  }

  lemma OrderFacts(curve: Curve, g: int -> Point)
    requires Ready(curve, g) && Setting(curve, g)
    ensures Prime(Val(curve.order)) && 0 < Val(curve.order) <= TWO256
  {
  }

  /** The loop of ecdsa_sign_digest over the candidates of the generator. */
  method SignCandidates(curve: Curve, k: array<word>, rng: HmacDrbgCtx, privKey: array<byte>, z: array<word>,
                        sig: array<byte>, blind: nat -> seq<word>, noise: nat -> seq<word>,
                        canonical: (byte, seq<byte>) -> bool, ghost g: int -> Point,
                        ghost x: seq<byte>, ghost h: seq<byte>)
      returns (result: int, pby: byte, attempt: nat)
    requires Ready(curve, g) && Setting(curve, g) && |x| == 32 && |h| == 32 && rng.Shape()
    requires rng.Holds(Seeded(rng.compress, rng.iv, x, h))
    requires {k, rng.odig, rng.idig, rng.v} !! {curve.prime, curve.order, curve.orderHalf, z}
    requires Clear(curve.cp, k) && Clear(curve.cp, rng.odig) && Clear(curve.cp, rng.idig) && Clear(curve.cp, rng.v)
    requires k.Length == 9 && k !in {rng.odig, rng.idig, rng.v}
    requires Blinded(blind, noise, Val(curve.prime), Val(curve.order))
    requires Norm(z) && Val(z) < TWO256 && privKey.Length >= 32 && sig.Length >= 64 && sig != privKey
    modifies k, rng.odig, rng.idig, rng.v, sig
    ensures result == (if attempt < 10000 then 0 else -1)
    ensures result == 0 ==> canonical(pby, sig[0..64])
    ensures result == 0 ==>
      Signature(g, Nonce(rng.compress, rng.iv, x, h, attempt), Val(z), BeValue(privKey[0..32]), Val(curve.order),
                BeValue(sig[0..32]), BeValue(sig[32..64]), pby)
    ensures forall i :: 0 <= i < attempt ==>
      Rejected(g, Nonce(rng.compress, rng.iv, x, h, i), Val(z), BeValue(privKey[0..32]), Val(curve.order), canonical)
    ensures result == 0 ==>
      !Rejected(g, Nonce(rng.compress, rng.iv, x, h, attempt), Val(z), BeValue(privKey[0..32]), Val(curve.order),
                canonical)
  {
    hide Val, Norm, Prime, BeValue, Signature, Rejected, Ready, Setting, HmacDrbgCtx.Holds, Seeded, Nonce, Candidate,
      Next, Nth, Drawn, Blinded;
    ghost var p, n, vz, d := Val(curve.prime), Val(curve.order), Val(z), BeValue(privKey[0..32]);
    NonceIsCandidate(rng.compress, rng.iv, x, h, 0);
    FirstState(rng.compress, rng.iv, Seeded(rng.compress, rng.iv, x, h));
    attempt := 0;
    while attempt < 10000
      invariant 0 <= attempt <= 10000
      invariant rng.Holds(Nth(rng.compress, rng.iv, Seeded(rng.compress, rng.iv, x, h), attempt))
      invariant forall i :: 0 <= i < attempt ==>
        Rejected(g, Nonce(rng.compress, rng.iv, x, h, i), vz, d, n, canonical)
      modifies k, rng.odig, rng.idig, rng.v, sig
    {
      BlindedAt(blind, noise, p, n, attempt);
      NonceIsCandidate(rng.compress, rng.iv, x, h, attempt);
      ghost var s := Nth(rng.compress, rng.iv, Seeded(rng.compress, rng.iv, x, h), attempt);
      var ok;
      ok, pby := NextAttempt(curve, k, rng, blind(attempt), noise(attempt), privKey, z, sig, canonical, g, s);
      if ok {
        OrderFacts(curve, g);
        AcceptedBytes(g, Nonce(rng.compress, rng.iv, x, h, attempt), vz, d, n, canonical, pby, sig);
        return 0, pby, attempt;
      }
      attempt := attempt + 1;
    }
    pby := 0;
    result := -1;
  }

  lemma FirstState(f: Compression, iv: seq<word>, s: State)
    requires Compresses(f) && |iv| == 8 && HmacDrbg.Proper(s)
    ensures Nth(f, iv, s, 0) == s
  {
  }

  /** Signs a digest with the nonces of RFC 6979: the signature belongs to the first candidate that is not rejected.
      compress and iv are the compression function and the initial value of SHA-256. */
  method SignDeterministic(curve: Curve, privKey: array<byte>, digest: array<byte>, sig: array<byte>,
                           compress: Compression, iv: seq<word>, blind: nat -> seq<word>, noise: nat -> seq<word>,
                           canonical: (byte, seq<byte>) -> bool, ghost g: int -> Point)
      returns (result: int, pby: byte, attempt: nat)
    requires Ready(curve, g) && Setting(curve, g) && Compresses(compress) && |iv| == 8
    requires Blinded(blind, noise, Val(curve.prime), Val(curve.order))
    requires privKey.Length >= 32 && digest.Length >= 32 && sig.Length >= 64 && sig !in {privKey, digest}
    modifies sig
    ensures result == (if attempt < 10000 then 0 else -1)
    ensures result == 0 ==> canonical(pby, sig[0..64])
    ensures result == 0 ==>
      Signature(g, Nonce(compress, iv, privKey[0..32], digest[0..32], attempt), BeValue(digest[0..32]),
                BeValue(privKey[0..32]), Val(curve.order), BeValue(sig[0..32]), BeValue(sig[32..64]), pby)
    ensures forall i :: 0 <= i < attempt ==>
      Rejected(g, Nonce(compress, iv, privKey[0..32], digest[0..32], i), BeValue(digest[0..32]),
               BeValue(privKey[0..32]), Val(curve.order), canonical)
    ensures result == 0 ==>
      !Rejected(g, Nonce(compress, iv, privKey[0..32], digest[0..32], attempt), BeValue(digest[0..32]),
                BeValue(privKey[0..32]), Val(curve.order), canonical)
    ensures BeValue(digest[0..32]) < Val(curve.order) ==> forall i: nat ::
      Nonce(compress, iv, privKey[0..32], digest[0..32], i)
      == StandardNonce(compress, iv, privKey[0..32], digest[0..32], Val(curve.order), i)
  {
    hide Val, Norm, BeValue, Signature, Rejected, Ready, Setting, HmacDrbgCtx.Holds, Seeded, Nonce, Blinded, Clear,
      Compresses, StandardNonce;
    ghost var x, h := privKey[0..32], digest[0..32];
    var rng, k, z := Prepare(curve, privKey[0..32], digest, compress, iv);
    result, pby, attempt := SignCandidates(curve, k, rng, privKey, z, sig, blind, noise, canonical, g, x, h);
    OrderFacts(curve, g);
    if BeValue(h) < Val(curve.order) {
      StandardBelowOrder(compress, iv, x, h, Val(curve.order));
    }
  }

  /** The local state of the signer: its generator, nonce and digest. */
  method Prepare(curve: Curve, x: seq<byte>, digest: array<byte>, compress: Compression, iv: seq<word>)
      returns (rng: HmacDrbgCtx, k: array<word>, z: array<word>)
    requires Compresses(compress) && |iv| == 8 && |x| == 32 && digest.Length >= 32
    ensures rng.compress == compress && rng.iv == iv && rng.Shape()
    ensures rng.Holds(Seeded(compress, iv, x, digest[0..32]))
    ensures fresh(rng.odig) && fresh(rng.idig) && fresh(rng.v) && fresh(k) && fresh(z)
    ensures k.Length == 9 && k !in {rng.odig, rng.idig, rng.v} && z !in {k, rng.odig, rng.idig, rng.v}
    ensures Norm(z) && Val(z) == BeValue(digest[0..32]) < TWO256
    ensures Clear(curve.cp, k) && Clear(curve.cp, rng.odig) && Clear(curve.cp, rng.idig) && Clear(curve.cp, rng.v)
  {
    hide Val, Norm, BeValue, Seeded, HmacDrbgCtx.Holds;
    rng := InitRfc6979(compress, iv, x, digest[0..32]);
    rng.HoldsParts(Seeded(compress, iv, x, digest[0..32]));
    z := new word[9];
    BnReadBe(digest, 0, z);
    k := new word[9];
  }
}
