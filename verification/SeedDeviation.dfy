/** Where init_rfc6979 (rfc6979.c) departs from RFC 6979: it seeds the generator with the hash as it is, and not with
    the hash modulo the order. */
module SeedDeviation {
  import opened Words
  import opened Digits
  import opened BignumBasics
  import opened BignumConvert
  import opened Streaming
  import opened Sha256
  import opened Rfc2104
  import opened HmacDrbg
  import opened Rfc6979
  import opened ReseedDeviation
  import Secp256k1

  /** A key or a digest of 32 bytes with a small number in the fourth. */
  ghost function Key(x: word): (k: seq<byte>)
    ensures |k| == 32
  {
    BytesOf(Marked(x))
  }

  /** A compression function that knows the hash h.  The seed material ends in its third block; if that holds h, the
      digest is key 7, and otherwise key 8.  Under key 7 every digest of 32 bytes is key 7 again, and under other keys
      such a message passes through. */
  ghost function Knowing(h: seq<byte>): (f: Compression)
    ensures Compresses(f)
  {
    (s: seq<word>, b: seq<word>) =>
      if |b| != 16 then s
      else if s == Marked(0) then Marked(if b[0] % 0x100 in {0x31, 0x5B} then 3 else 1)
      else if s == Marked(1) then (if b[8] == 0x8000_0000 then b[..8] else Marked(2))
      else if s == Marked(3) then (if b[8] == 0x8000_0000 then Marked(7) else Marked(2))
      else if s == Marked(2) then Marked(if BytesOf(b)[1..33] == h then 7 else 8)
      else s
  }

  lemma MarksApart(x: word, y: word)
    ensures Marked(x) == Marked(y) <==> x == y
  {
    assert Marked(x)[0] == x && Marked(y)[0] == y;
  }

  lemma Masks()
    ensures XorByte(0, 0x36) == 0x36 && XorByte(0, 0x5C) == 0x5C
    ensures XorByte(7, 0x36) == 0x31 && XorByte(7, 0x5C) == 0x5B
    ensures XorByte(8, 0x36) == 0x3E && XorByte(8, 0x5C) == 0x54
  {
  }

  lemma FourthByte(x: word, c: byte)
    requires x in {0, 7, 8}
    ensures XorPad(Key(x), c)[3] == XorByte(x, c)
  {
    ByteAt(Marked(x), 3);
  }

  lemma FirstWord(x: word, c: byte)
    requires x in {0, 7, 8}
    ensures WordsOf(XorPad(Key(x), c))[0] % 0x100 == XorByte(x, c)
  {
    hide XorByte, JoinBytes, XorPad, Key, WordsOf;
    var p := XorPad(Key(x), c);
    FourthByte(x, c);
    WordAt(p, 0);
    DivModUnique(WordsOf(p)[0], 0x100, p[0] as int * 0x1_0000 + p[1] as int * 0x100 + p[2], p[3]);
  }

  /** The first block tells key 7 from the others. */
  lemma KeyBlock(h: seq<byte>, x: word, c: byte)
    requires x in {0, 7, 8} && c in {0x36, 0x5C}
    ensures Knowing(h)(Marked(0), WordsOf(XorPad(Key(x), c))) == Marked(if x == 7 then 3 else 1)
  {
    var b := WordsOf(XorPad(Key(x), c));
    FirstWord(x, c);
    Masks();
    hide XorByte, XorPad, Key, WordsOf, Marked, Knowing;
    FirstStep(h, b);
  }

  lemma FirstStep(h: seq<byte>, b: seq<word>)
    requires |b| == 16
    ensures Knowing(h)(Marked(0), b) == Marked(if b[0] % 0x100 in {0x31, 0x5B} then 3 else 1)
  {
  }

  /** HMAC of 32 bytes. */
  lemma DigestUnder(h: seq<byte>, x: word, c: byte, m: seq<byte>)
    requires x in {0, 7, 8} && c in {0x36, 0x5C} && |m| == 32
    ensures Hash(Knowing(h), Marked(0), XorPad(Key(x), c) + m) == if x == 7 then Key(7) else m
  {
    var f, w := Knowing(h), WordsOf(m);
    KeyBlock(h, x, c);
    MarksApart(1, 0);
    MarksApart(3, 0);
    MarksApart(3, 1);
    assert (w + DigestTail())[8] == 0x8000_0000 && (w + DigestTail())[..8] == w;
    assert f(Marked(1), w + DigestTail()) == w && f(Marked(3), w + DigestTail()) == Marked(7);
    BytesOfWords(m);
    hide WordsOf, BytesOf, Hash, XorPad, DigestTail, Knowing, Marked;
    HmacOfDigest(f, Marked(0), Key(x), m, w);
  }

  lemma HmacOf32(h: seq<byte>, x: word, m: seq<byte>)
    requires x in {0, 7, 8} && |m| == 32
    ensures Hmac(Knowing(h), Marked(0), Key(x), m) == if x == 7 then Key(7) else m
  {
    DigestUnder(h, x, 0x36, m);
    hide Hash, Key, XorPad;
    DigestUnder(h, x, 0x5C, if x == 7 then Key(7) else m);
  }

  /** The seed material V || d || x || y with its padding: two blocks, and y in the second from byte 1 on. */
  lemma SeedBlocks(v: seq<byte>, d: byte, x: seq<byte>, y: seq<byte>) returns (p: seq<byte>)
    requires |v| == |x| == |y| == 32 && d <= 1
    ensures p == (v + [d] + (x + y)) + Padding(64 + |v + [d] + (x + y)|)
    ensures |p| == 128 && p[32] == d && p[64..][1..33] == y
  {
    var m := v + [d] + (x + y);
    p := m + Padding(64 + |m|);
    assert |m| == 97;
    DivModUnique(55 - 161, 64, -2, 22);
    assert |Padding(161)| == 31;
    assert m[32] == d && m[65..97] == y;
    hide Padding;
    assert p[64..][1..33] == p[65..97] == m[65..97];
  }

  /** The first of the two blocks does not look like a digest. */
  lemma SeedFirst(h: seq<byte>, b: seq<byte>, s: word)
    requires |b| == 64 && b[32] <= 1 && s in {1, 3}
    ensures Knowing(h)(Marked(s), WordsOf(b)) == Marked(2)
  {
    WordAt(b, 8);
    hide JoinBytes;
    assert WordsOf(b)[8] < 0x200_0000;
    MarksApart(s, 0);
    MarksApart(s, 1);
    MarksApart(s, 3);
  }

  lemma SeedSecond(h: seq<byte>, b: seq<byte>)
    requires |b| == 64
    ensures Knowing(h)(Marked(2), WordsOf(b)) == Marked(if b[1..33] == h then 7 else 8)
  {
    BytesOfWords(b);
    MarksApart(2, 0);
    MarksApart(2, 1);
    MarksApart(2, 3);
  }

  /** The inner hash of the seed material is key 7 or key 8. */
  lemma InnerSeed(h: seq<byte>, k: word, v: seq<byte>, d: byte, x: seq<byte>, y: seq<byte>)
    requires k in {0, 7, 8} && |v| == |x| == |y| == 32 && d <= 1
    ensures Hash(Knowing(h), Marked(0), XorPad(Key(k), 0x36) + (v + [d] + (x + y))) == Key(if y == h then 7 else 8)
  {
    var f, m := Knowing(h), v + [d] + (x + y);
    var p := SeedBlocks(v, d, x, y);
    var s: word := if k == 7 then 3 else 1;
    KeyBlock(h, k, 0x36);
    assert p[..64][32] == d;
    SeedFirst(h, p[..64], s);
    SeedSecond(h, p[64..]);
    hide Hash, XorPad, Padding, Knowing, Marked, WordsOf, BytesOf, Step, Absorb;
    HashAfterBlock(f, Marked(0), XorPad(Key(k), 0x36), m);
    TwoBlocks(f, Marked(s), p);
  }

  lemma TwoBlocks(f: Compression, iv: seq<word>, p: seq<byte>)
    requires |p| == 128
    ensures Absorb(Step(f), iv, p, 64) == f(f(iv, WordsOf(p[..64])), WordsOf(p[64..]))
  {
    hide Absorb, Step, WordsOf;
    assert p == p[..64] + p[64..];
    AbsorbAppend(Step(f), iv, p[..64], p[64..], 64);
    FirstBlock(f, iv, p[..64]);
    FirstBlock(f, f(iv, WordsOf(p[..64])), p[64..]);
  }

  lemma HmacOfSeed(h: seq<byte>, k: word, v: seq<byte>, d: byte, x: seq<byte>, y: seq<byte>)
    requires k in {0, 7, 8} && |v| == |x| == |y| == 32 && d <= 1
    ensures Hmac(Knowing(h), Marked(0), Key(k), v + [d] + (x + y)) == Key(if k == 7 || y == h then 7 else 8)
  {
    InnerSeed(h, k, v, d, x, y);
    hide Hash, Key, XorPad;
    DigestUnder(h, k, 0x5C, Key(if y == h then 7 else 8));
  }

  lemma ZeroKey()
    ensures Zeros(32) == Key(0)
  {
    forall i | 0 <= i < 32 ensures Key(0)[i] == 0 {
      ByteAt(Marked(0), i);
    }
  }

  /** Steps b to g with names for the intermediate values. */
  lemma SeedSteps(f: Compression, iv: seq<word>, x: seq<byte>, y: seq<byte>, k1: seq<byte>, v1: seq<byte>,
                  k2: seq<byte>, v2: seq<byte>)
    requires |k1| == 32 && |k2| == 32
    requires k1 == Hmac(f, iv, Zeros(32), Ones() + [0] + (x + y)) && v1 == Hmac(f, iv, k1, Ones())
    requires k2 == Hmac(f, iv, k1, v1 + [1] + (x + y)) && v2 == Hmac(f, iv, k2, v1)
    ensures Seeded(f, iv, x, y) == State(k2, v2)
  {
    hide Hmac, Zeros;
    assert seq(32, i => 1) == Ones();
  }

  ghost function Ones(): (v: seq<byte>)
    ensures |v| == 32
  {
    seq(32, i => 1)
  }

  /** What the generator makes of a seed under this compression function. */
  lemma SeededUnder(h: seq<byte>, x: seq<byte>, y: seq<byte>)
    requires |x| == |y| == 32
    ensures Seeded(Knowing(h), Marked(0), x, y)
         == if y == h then State(Key(7), Key(7)) else State(Key(8), Ones())
  {
    hide Hmac, Key, Knowing, Marked, Zeros, Seeded, Ones;
    var q: word := if y == h then 7 else 8;
    var v1 := if y == h then Key(7) else Ones();
    ZeroKey();
    HmacOfSeed(h, 0, Ones(), 0, x, y);
    HmacOf32(h, q, Ones());
    HmacOfSeed(h, q, v1, 1, x, y);
    HmacOf32(h, q, v1);
    SeedSteps(Knowing(h), Marked(0), x, y, Key(q), v1, Key(q), v1);
  }

  lemma FirstNonce(f: Compression, iv: seq<word>, x: seq<byte>, y: seq<byte>, s: State)
    requires Compresses(f) && |iv| == 8 && |x| == 32 && |y| == 32 && Seeded(f, iv, x, y) == s && |s.k| == 32
    ensures Nonce(f, iv, x, y, 0) == BeValue(Hmac(f, iv, s.k, s.v))
  {
    hide Seeded, Hmac, Compresses, BeValue;
  }

  /** The first candidates differ. */
  lemma NoncesDiffer(h: seq<byte>, x: seq<byte>, y: seq<byte>)
    requires |x| == |h| == |y| == 32 && y != h
    ensures Compresses(Knowing(h)) && |Marked(0)| == 8
    ensures Nonce(Knowing(h), Marked(0), x, h, 0) != Nonce(Knowing(h), Marked(0), x, y, 0)
    ensures Seeded(Knowing(h), Marked(0), x, h) != Seeded(Knowing(h), Marked(0), x, y)
  {
    KeyNotOnes();
    hide Hmac, Seeded, Key, Knowing, Marked, BeValue, Ones, Nonce, Compresses;
    var f, iv := Knowing(h), Marked(0);
    SeededUnder(h, x, h);
    SeededUnder(h, x, y);
    HmacOf32(h, 7, Key(7));
    HmacOf32(h, 8, Ones());
    FirstNonce(f, iv, x, h, State(Key(7), Key(7)));
    FirstNonce(f, iv, x, y, State(Key(8), Ones()));
  }

  lemma KeyNotOnes()
    ensures BeValue(Key(7)) != BeValue(Ones())
  {
    ByteAt(Marked(7), 0);
    assert Key(7)[0] != Ones()[0];
    hide Key, Ones, BeValue;
    if BeValue(Key(7)) == BeValue(Ones()) {
      BeBytesUnique(Key(7), Ones());
      assert false;
    }
  }

  /** Two hashes lead to the same states and nonces, whatever the compression function. */
  ghost predicate SameSeeds(x: seq<byte>, h: seq<byte>, o: seq<byte>)
  {
    forall f: Compression, iv: seq<word> | Compresses(f) && |iv| == 8 :: Seeded(f, iv, x, h) == Seeded(f, iv, x, o)
  }

  ghost predicate SameNonces(x: seq<byte>, h: seq<byte>, o: seq<byte>)
    requires |x| == |h| == |o| == 32
  {
    forall f: Compression, iv: seq<word>, i: nat | Compresses(f) && |iv| == 8 ::
      Nonce(f, iv, x, h, i) == Nonce(f, iv, x, o, i)
  }

  lemma NotSame(x: seq<byte>, h: seq<byte>, o: seq<byte>)
    requires |x| == |h| == |o| == 32 && o != h
    ensures !SameSeeds(x, h, o) && !SameNonces(x, h, o)
  {
    hide Knowing, Marked, Seeded, Compresses, Nonce;
    NoncesDiffer(h, x, o);
  }

  /** Leaving out the reduction makes no difference exactly when the hash is below the order. */
  lemma SeedConforms(x: seq<byte>, h: seq<byte>, n: int, o: seq<byte>)
    requires |x| == |h| == 32 && n > 0 && Bits2Octets(h, n, o)
    ensures SameSeeds(x, h, o) <==> BeValue(h) < n
    ensures SameNonces(x, h, o) <==> BeValue(h) < n
  {
    ReducedAlready(h, n, o);
    hide Seeded, Nonce, Compresses, BeValue;
    if o != h {
      NotSame(x, h, o);
    }
  }

  lemma {:induction false} AllOnes(s: seq<int>, n: nat, b: nat)
    requires n <= |s| && b > 0 && forall i :: 0 <= i < n ==> s[i] == b - 1
    ensures Sum(s, n, b) == Weight(b, n) - 1
  {
    if n > 0 {
      AllOnes(s, n - 1, b);
      var w := Weight(b, n - 1);
      assert (b - 1) * w + w == b * w;
    }
  }

  /** A digest of all ones is above the order of secp256k1, so its nonces can differ from those of the RFC. */
  lemma HighDigest(x: seq<byte>, o: seq<byte>)
    requires |x| == 32 && Bits2Octets(seq(32, j => 0xFF), Secp256k1.N, o)
    ensures !SameNonces(x, seq(32, j => 0xFF), o)
  {
    var h: seq<byte> := seq(32, j => 0xFF);
    AllOnes(Reversed(h), 32, 0x100);
    WeightRegroup(8);
    assert Weight(TWO32, 8) == TWO256;
    assert BeValue(h) >= Secp256k1.N;
    SeedConforms(x, h, Secp256k1.N, o);
  }
}
