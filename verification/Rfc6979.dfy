/** Deterministic nonces (rfc6979.c) on top of the HMAC-DRBG. */
module Rfc6979 {
  import opened Words
  import opened Digits
  import opened BignumBasics
  import opened BignumConvert
  import opened Streaming
  import opened Sha256
  import opened Rfc2104
  import opened HmacDrbg

  // ----- section 3.2 of RFC 6979, for a curve order of 256 bits and SHA-256

  /** Steps b to g: x and the reduced hash are given as 32 octets each. */
  ghost function Seeded(f: Compression, iv: seq<word>, x: seq<byte>, h: seq<byte>): State
  {
    var k0, v0 := Zeros(32), seq(32, i => 1);
    var k1 := Short(Hmac(f, iv, k0, v0 + [0] + (x + h)));
    var v1 := Hmac(f, iv, k1, v0);
    var k2 := Short(Hmac(f, iv, k1, v1 + [1] + (x + h)));
    State(k2, Hmac(f, iv, k2, v1))
  }

  /** Keys are digests; this only says so where a length is asked for. */
  ghost function Short(k: seq<byte>): (r: seq<byte>)
    ensures |r| <= 64 && (|k| <= 64 ==> r == k)
  {
    if |k| <= 64 then k else []
  }

  /** Step h.2: one value of V has as many bits as the order. */
  ghost function Candidate(f: Compression, iv: seq<word>, s: State): seq<byte>
    requires Proper(s)
  {
    Hmac(f, iv, s.k, s.v)
  }

  /** Step h.3, for a candidate that is not suitable. */
  ghost function Next(f: Compression, iv: seq<word>, s: State): State
    requires Proper(s)
  {
    var v := Hmac(f, iv, s.k, s.v);
    var k := Short(Hmac(f, iv, s.k, v + [0]));
    State(k, Hmac(f, iv, k, v))
  }

  /** bits2octets: o are the octets of the hash value reduced modulo the order. */
  ghost predicate Bits2Octets(h: seq<byte>, n: int, o: seq<byte>)
    requires n > 0
  {
    |o| == 32 && BeValue(o) == BeValue(h) % n
  }

  /** int2octets: n octets, most significant first. */
  ghost function Octets(v: nat, n: nat): (o: seq<byte>)
    ensures |o| == n
  {
    if n == 0 then [] else Octets(v / 0x100, n - 1) + [v % 0x100]
  }

  lemma AppendOctet(s: seq<byte>, x: byte)
    ensures BeValue(s + [x]) == BeValue(s) * 0x100 + x
  {
    var r := Reversed(s + [x]);
    assert r[1..] == Reversed(s) && r[0] == x;
    SumSplit(r, 1, |r|, 0x100);
    assert Sum(r, 1, 0x100) == Sum(r, 0, 0x100) + r[0] * Weight(0x100, 0);
    assert Weight(0x100, 1) == 0x100;
  }

  lemma {:induction false} OctetsValue(v: nat, n: nat)
    requires v < Weight(0x100, n)
    ensures BeValue(Octets(v, n)) == v
  {
    if n == 0 {
      assert Reversed([]) == [];
    } else {
      DivMod(v, 0x100);
      assert Weight(0x100, n) == 0x100 * Weight(0x100, n - 1);
      OctetsValue(v / 0x100, n - 1);
      hide BeValue;
      AppendOctet(Octets(v / 0x100, n - 1), v % 0x100);
    }
  }

  /** The octets the RFC puts into the seed for a hash. */
  ghost function ReducedOctets(h: seq<byte>, n: int): (o: seq<byte>)
    requires n > 0
    ensures |o| == 32
  {
    Octets(BeValue(h) % n, 32)
  }

  lemma ReducedOctetsMeet(h: seq<byte>, n: int)
    requires 0 < n <= TWO256
    ensures Bits2Octets(h, n, ReducedOctets(h, n))
  {
    DivMod(BeValue(h), n);
    WeightRegroup(8);
    assert Weight(TWO32, 8) == TWO256;
    hide BeValue, Weight, Octets;
    OctetsValue(BeValue(h) % n, 32);
  }

  /** The code seeds with the hash as it is.  That is bits2octets exactly when the hash is below the order. */
  lemma ReducedAlready(h: seq<byte>, n: int, o: seq<byte>)
    requires |h| == 32 && n > 0 && Bits2Octets(h, n, o)
    ensures o == h <==> BeValue(h) < n
  {
    SumNonNegative(Reversed(h), 32, 0x100);
    DivMod(BeValue(h), n);
    hide BeValue;
    if BeValue(h) < n {
      DivModUnique(BeValue(h), n, 0, BeValue(h));
      BeBytesUnique(o, h);
    }
  }

  /** Instantiating the generator performs steps b to g. */
  lemma SeedsAlike(f: Compression, iv: seq<word>, x: seq<byte>, h: seq<byte>)
    requires Compresses(f) && |iv| == 8 && |x| == 32 && |h| == 32
    ensures Instantiate(f, iv, x + h) == Seeded(f, iv, x, h)
  {
    var s, data := State(Zeros(32), seq(32, i => 1)), x + h;
    RoundProper(f, iv, s, 0, data);
    var r := Round(f, iv, s, 0, data);
    HmacLength(f, iv, r.k, r.v + [1] + data);
    hide Hmac;
    assert |data| == 64;
  }

  /** Generating 32 bytes gives the candidate of step h.2 and leaves the state of step h.3. */
  lemma GeneratesCandidate(f: Compression, iv: seq<word>, s: State)
    requires Compresses(f) && |iv| == 8 && Proper(s)
    ensures Output(f, iv, s, 32) == (Candidate(f, iv, s), Next(f, iv, s))
  {
    HmacLength(f, iv, s.k, s.v);
    var v := Hmac(f, iv, s.k, s.v);
    HmacLength(f, iv, s.k, v + [0]);
    assert v + [0] + [] == v + [0];
    OneBlock(f, iv, s.k, s.v);
    hide Hmac, Generated;
    LastUpdate(f, iv, State(s.k, v));
    var none: seq<byte> := [];
    assert none + none == none && v + [0] + none == v + [0];
    assert (v + none)[..32] == v;
  }

  lemma OneBlock(f: Compression, iv: seq<word>, k: seq<byte>, v: seq<byte>)
    requires |k| == 32 && |v| == 32 && Compresses(f) && |iv| == 8
    ensures var v' := Hmac(f, iv, k, v); Generated(f, iv, k, v, 32) == (v' + [], v')
  {
    HmacLength(f, iv, k, v);
    EmptyGenerated(f, iv, k, Hmac(f, iv, k, v));
    hide Hmac;
  }

  lemma NextProper(f: Compression, iv: seq<word>, s: State)
    requires Compresses(f) && |iv| == 8 && Proper(s)
    ensures Proper(Next(f, iv, s))
  {
    HmacLength(f, iv, s.k, s.v);
    var v := Hmac(f, iv, s.k, s.v);
    HmacLength(f, iv, s.k, v + [0]);
    HmacLength(f, iv, Hmac(f, iv, s.k, v + [0]), v);
  }

  lemma SeededProper(f: Compression, iv: seq<word>, x: seq<byte>, h: seq<byte>)
    requires Compresses(f) && |iv| == 8 && |x| == 32 && |h| == 32
    ensures Proper(Seeded(f, iv, x, h))
  {
    SeedsAlike(f, iv, x, h);
  }

  /** The state after i unsuitable candidates. */
  ghost function Nth(f: Compression, iv: seq<word>, s: State, i: nat): (r: State)
    requires Compresses(f) && |iv| == 8 && Proper(s)
    ensures Proper(r)
  {
    if i == 0 then s else
      NextProper(f, iv, Nth(f, iv, s, i - 1));
      Next(f, iv, Nth(f, iv, s, i - 1))
  }

  /** The nonce of attempt i, as an integer. */
  ghost function Nonce(f: Compression, iv: seq<word>, x: seq<byte>, h: seq<byte>, i: nat): int
    requires Compresses(f) && |iv| == 8 && |x| == 32 && |h| == 32
  {
    SeededProper(f, iv, x, h);
    BeValue(Candidate(f, iv, Nth(f, iv, Seeded(f, iv, x, h), i)))
  }

  /** The nonce of attempt i as the RFC has it. */
  ghost function StandardNonce(f: Compression, iv: seq<word>, x: seq<byte>, h: seq<byte>, n: int, i: nat): int
    requires Compresses(f) && |iv| == 8 && |x| == 32 && n > 0
  {
    Nonce(f, iv, x, ReducedOctets(h, n), i)
  }

  lemma StandardBelowOrder(f: Compression, iv: seq<word>, x: seq<byte>, h: seq<byte>, n: int)
    requires Compresses(f) && |iv| == 8 && |x| == 32 && |h| == 32 && 0 < n <= TWO256 && BeValue(h) < n
    ensures forall i: nat :: StandardNonce(f, iv, x, h, n, i) == Nonce(f, iv, x, h, i)
  {
    ReducedOctetsMeet(h, n);
    ReducedAlready(h, n, ReducedOctets(h, n));
    hide Nonce, BeValue, ReducedOctets, Compresses;
  }

  // ----- the code

  /** init_rfc6979 */
  method InitRfc6979(compress: Compression, iv: seq<word>, privKey: seq<byte>, digest: seq<byte>)
      returns (rng: HmacDrbgCtx)
    requires Compresses(compress) && |iv| == 8 && |privKey| == 32 && |digest| == 32
    ensures rng.compress == compress && rng.iv == iv && fresh(rng.odig) && fresh(rng.idig) && fresh(rng.v)
    ensures rng.Holds(Seeded(compress, iv, privKey, digest))
  {
    SeedsAlike(compress, iv, privKey, digest);
    hide HmacDrbgCtx.Holds, Seeded, Instantiate;
    rng := new HmacDrbgCtx(compress, iv, privKey, digest);
  }

  /** generate_k_rfc6979 */
  method GenerateK(k: array<word>, rng: HmacDrbgCtx, ghost s: State)
    requires rng.Holds(s) && k.Length == 9 && k !in {rng.odig, rng.idig, rng.v}
    modifies k, rng.odig, rng.idig, rng.v
    ensures Norm(k) && Val(k) == BeValue(Candidate(rng.compress, rng.iv, s))
    ensures rng.Holds(Next(rng.compress, rng.iv, s))
  {
    GeneratesCandidate(rng.compress, rng.iv, s);
    assert rng.Shape();
    hide HmacDrbgCtx.Holds, Candidate, Next, Output, Val, Norm, BeValue;
    var buf := new byte[32];
    rng.Generate(buf, 32, s);
    BnReadBe(buf, 0, k);
    assert buf[0..32] == buf[..32];
  }
}
