/** The HMAC-DRBG of hmac_drbg.c, which keeps two chaining values instead of the key. */
module HmacDrbg {
  import opened Words
  import opened BignumConvert
  import opened Streaming
  import opened Sha256
  import opened Rfc2104

  // ----- section 10.1.2 of NIST SP 800-90A

  datatype State = State(k: seq<byte>, v: seq<byte>)

  ghost predicate Proper(s: State)
  {
    |s.k| == 32 && |s.v| == 32
  }

  /** K = HMAC(K, V || domain || data), V = HMAC(K, V). */
  ghost function Round(f: Compression, iv: seq<word>, s: State, domain: byte, data: seq<byte>): State
    requires Proper(s) && Compresses(f) && |iv| == 8
  {
    HmacLength(f, iv, s.k, s.v + [domain] + data);
    var k := Hmac(f, iv, s.k, s.v + [domain] + data);
    State(k, Hmac(f, iv, k, s.v))
  }

  /** HMAC_DRBG_Update of section 10.1.2.2. */
  ghost function UpdateState(f: Compression, iv: seq<word>, s: State, data: seq<byte>): (r: State)
    requires Proper(s) && Compresses(f) && |iv| == 8
    ensures Proper(r)
  {
    RoundProper(f, iv, s, 0, data);
    var r := Round(f, iv, s, 0, data);
    if data == [] then r else
      RoundProper(f, iv, r, 1, data);
      Round(f, iv, r, 1, data)
  }

  /** What hmac_drbg_reseed makes of a state: without entropy it stops after the first round. */
  ghost function Reseeded(f: Compression, iv: seq<word>, s: State, entropy: seq<byte>, addin: seq<byte>): State
    requires Proper(s) && Compresses(f) && |iv| == 8
  {
    if |entropy| == 0 then Round(f, iv, s, 0, addin) else UpdateState(f, iv, s, entropy + addin)
  }

  /** K = 0x00 ... 0x00 and V = 0x01 ... 0x01. */
  ghost function Blank(): State
  {
    State(Zeros(32), seq(32, i => 1))
  }

  /** Section 10.1.2.3: the blank state, then an update with the seed material. */
  ghost function Instantiate(f: Compression, iv: seq<word>, seed: seq<byte>): (r: State)
    requires Compresses(f) && |iv| == 8
    ensures Proper(r)
  {
    UpdateState(f, iv, Blank(), seed)
  }

  /** The loop of section 10.1.2.5: successive values of V until n bytes are there, and the last of them. */
  ghost function Generated(f: Compression, iv: seq<word>, k: seq<byte>, v: seq<byte>, n: nat)
    : (r: (seq<byte>, seq<byte>))
    requires |k| == 32 && |v| == 32 && Compresses(f) && |iv| == 8
    ensures |r.0| >= n && |r.1| == 32
    decreases n
  {
    if n == 0 then ([], v) else
      HmacLength(f, iv, k, v);
      var v' := Hmac(f, iv, k, v);
      var r := Generated(f, iv, k, v', if n < 32 then 0 else n - 32);
      (v' + r.0, r.1)
  }

  /** Section 10.1.2.5 without additional input: the leftmost n bytes, and the state afterwards. */
  ghost function Output(f: Compression, iv: seq<word>, s: State, n: nat): (r: (seq<byte>, State))
    requires Proper(s) && Compresses(f) && |iv| == 8
    ensures |r.0| == n && Proper(r.1)
  {
    var g := Generated(f, iv, s.k, s.v, n);
    (g.0[..n], UpdateState(f, iv, State(s.k, g.1), []))
  }

  lemma {:induction false} AbsorbWords(f: Compression, iv: seq<word>, m: seq<byte>)
    requires Compresses(f) && |iv| == 8
    ensures |Absorb(Step(f), iv, m, 64)| == 8
    decreases |m|
  {
    if |m| >= 64 {
      var h, x := Absorb(Step(f), iv, m[..|m| - 64], 64), m[|m| - 64..];
      AbsorbWords(f, iv, m[..|m| - 64]);
      assert Absorb(Step(f), iv, m, 64) == Step(f)(h, x) == f(h, WordsOf(x));
    }
  }

  lemma HmacLength(f: Compression, iv: seq<word>, k: seq<byte>, m: seq<byte>)
    requires Compresses(f) && |iv| == 8 && |k| <= 64
    ensures |Hmac(f, iv, k, m)| == 32
  {
    var outer := XorPad(k, 0x5C) + Hash(f, iv, XorPad(k, 0x36) + m);
    AbsorbWords(f, iv, outer + Padding(|outer|));
  }

  lemma RoundProper(f: Compression, iv: seq<word>, s: State, domain: byte, data: seq<byte>)
    requires Proper(s) && Compresses(f) && |iv| == 8
    ensures Proper(Round(f, iv, s, domain, data))
  {
    var k := Hmac(f, iv, s.k, s.v + [domain] + data);
    HmacLength(f, iv, s.k, s.v + [domain] + data);
    HmacLength(f, iv, k, s.v);
  }

  // ----- the padded second block

  /** Padding of a message whose length is one block and n bytes, n below 56. */
  lemma ShortPadding(n: nat)
    requires n <= 55
    ensures Padding(64 + n) == [0x80] + Zeros(55 - n) + BytesOf([0, 8 * (64 + n)])
  {
    DivModUnique(55 - (64 + n), 64, -1, 55 - n);
    DivModUnique(8 * (64 + n), TWO64, 0, 8 * (64 + n));
    DivModUnique(8 * (64 + n), TWO32, 0, 8 * (64 + n));
  }

  /** The eight words after V: a one bit, zeros, and the length of a block and a digest. */
  ghost function DigestTail(): (w: seq<word>)
    ensures |w| == 8
  {
    [0x8000_0000, 0, 0, 0, 0, 0, 0, 768]
  }

  lemma TailWords()
    ensures |Padding(96)| == 32 && WordsOf(Padding(96)) == DigestTail()
  {
    var a: seq<byte> := [0x80, 0, 0, 0];
    var b, c := Zeros(20), BytesOf([0, 768]);
    ShortPadding(32);
    assert Padding(96) == (a + b) + c by {
      assert [0x80] + Zeros(23) == a + b;
    }
    hide Padding;
    ThreeParts(a, b, c);
  }

  lemma ThreeParts(a: seq<byte>, b: seq<byte>, c: seq<byte>)
    requires a == [0x80, 0, 0, 0] && b == Zeros(20) && c == BytesOf([0, 768])
    ensures |(a + b) + c| % 4 == 0 && WordsOf((a + b) + c) == DigestTail()
  {
    JoinSmall();
    hide WordsOf, BytesOf, Zeros, JoinBytes;
    OneWord(0x80, 0, 0, 0);
    ZeroWords(5);
    WordsOfBytes([0, 768]);
    WordsOfConcat(a, b);
    WordsOfConcat(a + b, c);
    assert WordsOf(a) == [0x8000_0000] && WordsOf(b) == [0, 0, 0, 0, 0] && WordsOf(c) == [0, 768];
  }

  lemma OneWord(b3: byte, b2: byte, b1: byte, b0: byte)
    ensures WordsOf([b3, b2, b1, b0]) == [JoinBytes(b3, b2, b1, b0)]
  {
    hide JoinBytes;
  }

  lemma ZeroWords(n: nat)
    ensures |Zeros(4 * n)| % 4 == 0 && WordsOf(Zeros(4 * n)) == seq(n, i => 0)
  {
    JoinSmall();
    hide JoinBytes;
    forall j | 0 <= j < n
      ensures WordsOf(Zeros(4 * n))[j] == 0
    {
      assert Zeros(4 * n)[4 * j] == 0;
    }
  }

  lemma JoinSmall()
    ensures JoinBytes(0x80, 0, 0, 0) == 0x8000_0000 && JoinBytes(0, 0, 0, 0) == 0
    ensures JoinBytes(0, 0x80, 0, 0) == 0x80_0000
  {
    hide JoinBytes;
    var x, y, z := JoinBytes(0x80, 0, 0, 0), JoinBytes(0, 0, 0, 0), JoinBytes(0, 0x80, 0, 0);
  }

  /** An HMAC of one digest, from the chaining values of its key. */
  lemma HmacOfDigest(f: Compression, iv: seq<word>, k: seq<byte>, x: seq<byte>, w: seq<word>)
    requires Compresses(f) && |iv| == 8 && |k| <= 64 && |x| == 32 && WordsOf(x) == w
    ensures Hash(f, iv, XorPad(k, 0x36) + x) == BytesOf(f(f(iv, WordsOf(XorPad(k, 0x36))), w + DigestTail()))
    ensures Hash(f, iv, XorPad(k, 0x5C) + x) == BytesOf(f(f(iv, WordsOf(XorPad(k, 0x5C))), w + DigestTail()))
  {
    TailWords();
    WordsOfConcat(x, Padding(96));
    hide Padding, DigestTail;
    HashTwoBlocks(f, iv, XorPad(k, 0x36), x);
    HashTwoBlocks(f, iv, XorPad(k, 0x5C), x);
  }

  /** The first hash of update_k when there is no data: domain byte 0 and padding share a word. */
  lemma HashWithoutData(f: Compression, iv: seq<word>, k: seq<byte>, v: seq<byte>)
    requires Compresses(f) && |iv| == 8 && |k| <= 64 && |v| == 32
    ensures Hash(f, iv, XorPad(k, 0x36) + (v + [0]))
         == BytesOf(f(f(iv, WordsOf(XorPad(k, 0x36))), WordsOf(v) + [0x80_0000, 0, 0, 0, 0, 0, 0, 776]))
  {
    hide Padding, Hash, WordsOf, BytesOf, Zeros, XorPad;
    var a: seq<byte> := [0, 0x80, 0, 0];
    var b, c := Zeros(20), BytesOf([0, 776]);
    ZeroByteTail(v, a, b, c);
    EmptyParts(a, b, c);
    WordsOfConcat(v, (a + b) + c);
    HashTwoBlocks(f, iv, XorPad(k, 0x36), v + [0]);
  }

  lemma ZeroByteTail(v: seq<byte>, a: seq<byte>, b: seq<byte>, c: seq<byte>)
    requires |v| == 32 && a == [0, 0x80, 0, 0] && b == Zeros(20) && c == BytesOf([0, 776])
    ensures (v + [0]) + Padding(97) == v + ((a + b) + c)
  {
    ShortPadding(33);
    hide Padding, BytesOf;
    assert [0] + ([0x80] + Zeros(22)) == a + b;
  }

  lemma EmptyParts(a: seq<byte>, b: seq<byte>, c: seq<byte>)
    requires a == [0, 0x80, 0, 0] && b == Zeros(20) && c == BytesOf([0, 776])
    ensures |(a + b) + c| == 32 && WordsOf((a + b) + c) == [0x80_0000, 0, 0, 0, 0, 0, 0, 776]
  {
    JoinSmall();
    hide WordsOf, BytesOf, Zeros, JoinBytes;
    OneWord(0, 0x80, 0, 0);
    ZeroWords(5);
    WordsOfBytes([0, 776]);
    WordsOfConcat(a, b);
    WordsOfConcat(a + b, c);
    assert WordsOf(a) == [0x80_0000] && WordsOf(b) == [0, 0, 0, 0, 0] && WordsOf(c) == [0, 776];
  }

  /** XORing sixteen words with a repeated byte pads the key. */
  lemma XorPadWords(k: seq<byte>, b: byte)
    requires |k| == 32
    ensures |WordsOf(k + Zeros(32))| == |WordsOf(XorPad(k, b))| == 16
    ensures forall j :: 0 <= j < 16 ==> WordsOf(XorPad(k, b))[j] == Xor(WordsOf(k + Zeros(32))[j], b * 0x101_0101)
  {
    hide JoinBytes, Xor, XorByte;
    var m := k + Zeros(32);
    forall j | 0 <= j < 16
      ensures WordsOf(XorPad(k, b))[j] == Xor(WordsOf(m)[j], b * 0x101_0101)
    {
      XorWord(m[4 * j], m[4 * j + 1], m[4 * j + 2], m[4 * j + 3], b);
      assert forall i :: 0 <= i < 64 ==> XorPad(k, b)[i] == XorByte(m[i], b);
    }
  }

  // ----- the context

  class HmacDrbgCtx {
    const compress: Compression
    const iv: seq<word>
    const odig: array<word>
    const idig: array<word>
    const v: array<word>

    ghost predicate Shape()
    {
      && odig.Length == 8 && idig.Length == 8 && v.Length == 16 && odig != idig && odig != v && idig != v
      && Compresses(compress) && |iv| == 8
    }

    /** The context stands for the state s, although it holds no key. */
    ghost predicate Holds(s: State)
      reads odig, idig, v
    {
      && Shape() && Proper(s)
      && idig[..] == compress(iv, WordsOf(XorPad(s.k, 0x36)))
      && odig[..] == compress(iv, WordsOf(XorPad(s.k, 0x5C)))
      && v[..] == WordsOf(s.v) + DigestTail()
    }

    /** sha256_Transform(h, block, out) */
    method Transform(h: seq<word>, block: seq<word>, out: array<word>)
      requires Shape() && |h| == 8 && |block| == 16 && out.Length >= 8
      modifies out
      ensures out[..8] == compress(h, block)
      ensures out[8..] == old(out[8..])
    {
      var next := compress(h, block);
      var j := 0;
      while j < 8
        invariant 0 <= j <= 8 && forall i :: 0 <= i < j ==> out[i] == next[i]
        invariant forall i :: 8 <= i < out.Length ==> out[i] == old(out[i])
      {
        out[j] := next[j];
        j := j + 1;
      }
      assert out[..8] == next;
    }

    /** V = HMAC(K, V) */
    method UpdateV(ghost s: State)
      requires Holds(s)
      modifies v
      ensures |Hmac(compress, iv, s.k, s.v)| == 32
      ensures Holds(State(s.k, Hmac(compress, iv, s.k, s.v)))
    {
      HmacLength(compress, iv, s.k, s.v);
      HmacFromWords(s.k, s.v, v[..8]);
      hide WordsOf, BytesOf, Hash, Hmac, XorPad, DigestTail;
      assert v[..] == v[..8] + DigestTail();
      Transform(idig[..], v[..], v);
      assert v[..] == v[..8] + DigestTail();
      Transform(odig[..], v[..], v);
      assert v[..] == v[..8] + DigestTail();
    }

    lemma HmacFromWords(k: seq<byte>, m: seq<byte>, w: seq<word>)
      requires Shape() && |k| <= 64 && |m| == 32 && WordsOf(m) == w
      ensures var h1 := compress(compress(iv, WordsOf(XorPad(k, 0x36))), w + DigestTail());
        var h2 := compress(compress(iv, WordsOf(XorPad(k, 0x5C))), h1 + DigestTail());
        Hmac(compress, iv, k, m) == BytesOf(h2) && |h2| == 8 && WordsOf(Hmac(compress, iv, k, m)) == h2
    {
      hide WordsOf, BytesOf, Hash, XorPad, DigestTail, Padding;
      var c1, c2 := compress(iv, WordsOf(XorPad(k, 0x36))), compress(iv, WordsOf(XorPad(k, 0x5C)));
      assert |c1| == 8 && |c2| == 8;
      var h1 := compress(c1, w + DigestTail());
      assert |h1| == 8;
      HmacOfDigest(compress, iv, k, m, w);
      WordsOfBytes(h1);
      HmacOfDigest(compress, iv, k, BytesOf(h1), h1);
      var h2 := compress(c2, h1 + DigestTail());
      assert |h2| == 8;
      WordsOfBytes(h2);
    }

    // ----- update_k

    /** The inner message of the HMAC in update_k. */
    ghost function Inner(s: State, domain: byte, data: seq<byte>): seq<byte>
      requires Proper(s)
    {
      XorPad(s.k, 0x36) + (s.v + [domain] + data)
    }

    /** Without data the one block is made by patching two words of v, and patched back. */
    method InnerWithoutData(h: array<word>, ghost s: State)
      requires Holds(s) && h.Length == 16 && h !in {odig, idig, v}
      modifies v, h
      ensures Holds(s) && h[8..] == old(h[8..]) && BytesOf(h[..8]) == Hash(compress, iv, Inner(s, 0, []))
    {
      HashWithoutData(compress, iv, s.k, s.v);
      assert s.v + [0] + [] == s.v + [0];
      hide WordsOf, BytesOf, Hash, XorPad;
      ghost var w := v[..8];
      v[8] := 0x80_0000;
      v[15] := 776;
      assert v[..] == w + [0x80_0000, 0, 0, 0, 0, 0, 0, 776];
      Transform(idig[..], v[..], h);
      v[8] := 0x8000_0000;
      v[15] := 768;
      assert v[..] == w + DigestTail();
    }

    /** With data a hash context is resumed after the block of the key. */
    method InnerWithData(domain: byte, data1: seq<byte>, data2: seq<byte>, h: array<word>, ghost s: State)
      requires Holds(s) && h.Length == 16 && h !in {odig, idig, v}
      modifies h
      ensures h[8..] == old(h[8..]) && BytesOf(h[..8]) == Hash(compress, iv, Inner(s, domain, data1 + data2))
    {
      ghost var m, msg := Keyed(s, domain), Inner(s, domain, data1 + data2);
      var tail := KeyedTail(domain, s);
      InnerParts(s, domain, data1, data2);
      assert Shape();
      hide WordsOf, BytesOf, Hash, XorPad, DigestTail, Full, Tail, Absorb, JoinBytes, Holds, Inner, Keyed, Step;
      var digest := HashRest(idig[..], tail, data1, data2, m, msg);
      LoadDigest(digest, h);
    }

    /** The block of the key, V and the domain byte. */
    ghost function Keyed(s: State, domain: byte): (m: seq<byte>)
      requires Proper(s)
      ensures |m| == 97
    {
      XorPad(s.k, 0x36) + (s.v + [domain])
    }

    method KeyedTail(domain: byte, ghost s: State) returns (tail: seq<byte>)
      requires Holds(s)
      ensures |tail| == 33 && tail == Tail(Keyed(s, domain), 64)
      ensures idig[..] == Absorb(Step(compress), iv, Full(Keyed(s, domain), 64), 64)
    {
      tail := VBytes(s);
      tail := tail + [domain];
      ResumeFacts(s, domain, tail);
    }

    /** Resumes a hash in the middle of a message and feeds it the two pieces that follow. */
    method HashRest(state: seq<word>, tail: seq<byte>, data1: seq<byte>, data2: seq<byte>,
                    ghost m: seq<byte>, ghost msg: seq<byte>)
        returns (digest: array<byte>)
      requires Shape() && |state| == 8 && |tail| == 33 && |m| == 97 && msg == m + data1 + data2
      requires state == Absorb(Step(compress), iv, Full(m, 64), 64) && tail == Tail(m, 64)
      ensures fresh(digest) && digest.Length == 32 && digest[..] == Hash(compress, iv, msg)
    {
      hide Hash, Full, Tail, Absorb, Sha256Ctx.Holds, Step;
      var sha := new Sha256Ctx.Resume(compress, state, tail, 776, iv, m);
      sha.Update(data1, iv, m);
      sha.Update(data2, iv, m + data1);
      digest := new byte[32];
      sha.Final(digest, iv, m + data1 + data2);
    }

    lemma InnerParts(s: State, domain: byte, data1: seq<byte>, data2: seq<byte>)
      requires Proper(s)
      ensures Keyed(s, domain) + data1 + data2 == Inner(s, domain, data1 + data2)
    {
    }

    lemma HoldsParts(s: State)
      requires Holds(s)
      ensures Shape() && Proper(s) && v[..8] == WordsOf(s.v) && |s.v| == 32
    {
    }

    /** The bytes of V: REVERSE32 of each word, seen as memory. */
    method VBytes(ghost s: State) returns (b: seq<byte>)
      requires Holds(s)
      ensures b == s.v
    {
      hide WordsOf, BytesOf, ByteOf, Holds, DigestTail, XorPad;
      HoldsParts(s);
      ghost var w := v[..8];
      b := [];
      var i := 0;
      while i < 32
        invariant 0 <= i <= 32 && |b| == i && forall j :: 0 <= j < i ==> b[j] == BytesOf(w)[j]
      {
        ByteAt(w, i);
        b := b + [ByteOf(v[i / 4], 3 - i % 4)];
        i := i + 1;
      }
      BytesOfWords(s.v);
    }

    method LoadDigest(digest: array<byte>, h: array<word>)
      requires digest.Length == 32 && h.Length == 16
      modifies h
      ensures h[8..] == old(h[8..]) && BytesOf(h[..8]) == digest[..]
    {
      ghost var d := digest[..];
      hide JoinBytes, BytesOf, WordsOf;
      var i := 0;
      while i < 8
        invariant 0 <= i <= 8 && digest[..] == d
        invariant forall j :: 0 <= j < i ==> h[j] == WordsOf(d)[j]
        invariant forall j :: 8 <= j < 16 ==> h[j] == old(h[j])
      {
        WordAt(d, i);
        h[i] := JoinBytes(digest[4 * i], digest[4 * i + 1], digest[4 * i + 2], digest[4 * i + 3]);
        i := i + 1;
      }
      SameBytes(h[..8], d);
    }

    lemma SameBytes(w: seq<word>, d: seq<byte>)
      requires |w| == 8 && |d| == 32 && forall j :: 0 <= j < 8 ==> w[j] == WordsOf(d)[j]
      ensures BytesOf(w) == d
    {
      assert w == WordsOf(d);
      BytesOfWords(d);
    }

    lemma ResumeFacts(s: State, domain: byte, tail: seq<byte>)
      requires Holds(s) && tail == s.v + [domain]
      ensures var m := XorPad(s.k, 0x36) + tail;
        idig[..] == Absorb(Step(compress), iv, Full(m, 64), 64) && tail == Tail(m, 64)
    {
      var m := XorPad(s.k, 0x36) + tail;
      assert |m| == 97 && 97 % 64 == 33;
      assert Full(m, 64) == XorPad(s.k, 0x36);
      FirstBlock(compress, iv, XorPad(s.k, 0x36));
    }

    /** The outer hash of the HMAC, in words. */
    lemma OuterWords(s: State, m: seq<byte>, w: seq<word>, r: seq<word>)
      requires Holds(s) && |w| == 8 && BytesOf(w) == Hash(compress, iv, XorPad(s.k, 0x36) + m)
      requires r == compress(odig[..], w + DigestTail())
      ensures |r| == 8 && |Hmac(compress, iv, s.k, m)| == 32
      ensures WordsOf(Hmac(compress, iv, s.k, m) + Zeros(32)) == r + [0, 0, 0, 0, 0, 0, 0, 0]
    {
      hide WordsOf, BytesOf, Hash, XorPad, DigestTail, Padding, Zeros;
      WordsOfBytes(w);
      HmacOfDigest(compress, iv, s.k, BytesOf(w), w);
      assert |w + DigestTail()| == 16 && |odig[..]| == 8;
      assert |r| == 8;
      assert Hmac(compress, iv, s.k, m) == BytesOf(r);
      WordsOfBytes(r);
      ZeroWords(8);
      WordsOfConcat(BytesOf(r), Zeros(32));
    }

    /** h[i] ^= 0x36363636 */
    method XorInner(h: array<word>, ghost k: seq<byte>)
      requires h.Length == 16 && |k| == 32 && h[..] == WordsOf(k + Zeros(32))
      modifies h
      ensures h[..] == WordsOf(XorPad(k, 0x36))
    {
      hide WordsOf, XorPad, Xor, Zeros;
      ghost var w := h[..];
      var i := 0;
      while i < 16
        invariant 0 <= i <= 16
        invariant forall j :: 0 <= j < i ==> h[j] == Xor(w[j], 0x3636_3636)
        invariant forall j :: i <= j < 16 ==> h[j] == w[j]
      {
        XorWords(w[i], 0x3636_3636);
        h[i] := Xor(h[i], 0x3636_3636);
        i := i + 1;
      }
      PaddedKey(k, 0x36, w, h[..]);
    }

    /** x ^ 0x36363636 ^ 0x5c5c5c5c */
    function Turned(x: word): word
    {
      XorWords(x, 0x3636_3636);
      XorWords(Xor(x, 0x3636_3636), 0x5C5C_5C5C);
      Xor(Xor(x, 0x3636_3636), 0x5C5C_5C5C)
    }

    /** h[i] = h[i] ^ 0x36363636 ^ 0x5c5c5c5c */
    method XorOuter(h: array<word>, ghost k: seq<byte>)
      requires h.Length == 16 && |k| == 32 && h[..] == WordsOf(XorPad(k, 0x36))
      modifies h
      ensures h[..] == WordsOf(XorPad(k, 0x5C))
    {
      hide WordsOf, XorPad, Xor, Zeros, Turned;
      ghost var u := h[..];
      var i := 0;
      while i < 16
        invariant 0 <= i <= 16
        invariant forall j :: 0 <= j < i ==> h[j] == Turned(u[j])
        invariant forall j :: i <= j < 16 ==> h[j] == u[j]
      {
        h[i] := Turned(h[i]);
        i := i + 1;
      }
      RepaddedKey(k, u, h[..]);
    }

    lemma PaddedKey(k: seq<byte>, b: byte, w: seq<word>, u: seq<word>)
      requires |k| == 32 && w == WordsOf(k + Zeros(32)) && |u| == 16
      requires forall j :: 0 <= j < 16 ==> u[j] == Xor(w[j], b * 0x101_0101)
      ensures u == WordsOf(XorPad(k, b))
    {
      hide WordsOf, XorPad, Xor, Zeros;
      XorPadWords(k, b);
    }

    lemma RepaddedKey(k: seq<byte>, u: seq<word>, r: seq<word>)
      requires |k| == 32 && u == WordsOf(XorPad(k, 0x36)) && |u| == |r| == 16
      requires forall j :: 0 <= j < 16 ==> r[j] == Turned(u[j])
      ensures r == WordsOf(XorPad(k, 0x5C))
    {
      var w := WordsOf(k + Zeros(32));
      hide WordsOf, XorPad, Xor, Zeros;
      XorPadWords(k, 0x36);
      forall j | 0 <= j < 16
        ensures r[j] == Xor(w[j], 0x5C * 0x101_0101)
      {
        XorTwice(w[j], 0x3636_3636);
      }
      PaddedKey(k, 0x5C, w, r);
    }

    /** The outer hash: h holds the new key, filled up with zeros. */
    method OuterHash(h: array<word>, ghost s: State, ghost m: seq<byte>)
      requires Holds(s) && h.Length == 16 && h !in {odig, idig, v} && h[8..] == [0, 0, 0, 0, 0, 0, 0, 0]
      requires BytesOf(h[..8]) == Hash(compress, iv, XorPad(s.k, 0x36) + m)
      modifies h
      ensures |Hmac(compress, iv, s.k, m)| == 32
      ensures h[..] == WordsOf(Hmac(compress, iv, s.k, m) + Zeros(32))
    {
      ghost var w := h[..8];
      OuterWords(s, m, w, compress(odig[..], w + DigestTail()));
      h[8] := 0x8000_0000;
      h[15] := 768;
      assert h[..] == w + DigestTail();
      hide WordsOf, BytesOf, Hash, XorPad, Hmac, DigestTail, Zeros;
      Transform(odig[..], h[..], h);
      h[8] := 0;
      h[15] := 0;
      assert h[..] == h[..8] + [0, 0, 0, 0, 0, 0, 0, 0];
    }

    /** The chaining values of a key in place of the old ones. */
    method Precompute(h: array<word>, ghost k: seq<byte>)
      requires Shape() && h.Length == 16 && h !in {odig, idig, v} && |k| == 32 && h[..] == WordsOf(k + Zeros(32))
      modifies h, idig, odig
      ensures idig[..] == compress(iv, WordsOf(XorPad(k, 0x36)))
      ensures odig[..] == compress(iv, WordsOf(XorPad(k, 0x5C)))
    {
      hide WordsOf, XorPad, Zeros;
      XorInner(h, k);
      Transform(iv, h[..], idig);
      XorOuter(h, k);
      Transform(iv, h[..], odig);
      assert idig[..] == idig[..8] && odig[..] == odig[..8];
    }

    method Rekey(h: array<word>, ghost s: State, ghost m: seq<byte>)
      requires Holds(s) && h.Length == 16 && h !in {odig, idig, v} && h[8..] == [0, 0, 0, 0, 0, 0, 0, 0]
      requires BytesOf(h[..8]) == Hash(compress, iv, XorPad(s.k, 0x36) + m)
      modifies h, idig, odig
      ensures |Hmac(compress, iv, s.k, m)| == 32
      ensures Holds(State(Hmac(compress, iv, s.k, m), s.v))
    {
      hide WordsOf, BytesOf, Hash, XorPad, Hmac, DigestTail, Zeros;
      OuterHash(h, s, m);
      Precompute(h, Hmac(compress, iv, s.k, m));
    }

    /** K = HMAC(K, V || domain || data1 || data2); without data the domain is 0, whatever the caller asks for. */
    method UpdateK(domain: byte, data1: seq<byte>, data2: seq<byte>, ghost s: State)
      requires Holds(s)
      modifies odig, idig, v
      ensures var d := if data1 + data2 == [] then 0 else domain;
        var k := Hmac(compress, iv, s.k, s.v + [d] + (data1 + data2));
        |k| == 32 && Holds(State(k, s.v))
    {
      hide Holds, Hash, Hmac, BytesOf;
      var h := new word[16](i => 0);
      ghost var d := if data1 + data2 == [] then 0 else domain;
      if |data1| + |data2| == 0 {
        assert data1 + data2 == [];
        InnerWithoutData(h, s);
      } else {
        assert |data1 + data2| > 0;
        InnerWithData(domain, data1, data2, h, s);
      }
      Rekey(h, s, s.v + [d] + (data1 + data2));
    }

    // ----- the interface

    /** hmac_drbg_init: the chaining values of a key of zeros, V of ones, then the seed material. */
    constructor (compress: Compression, iv: seq<word>, entropy: seq<byte>, nonce: seq<byte>)
      requires Compresses(compress) && |iv| == 8
      ensures this.compress == compress && this.iv == iv && Shape() && fresh(odig) && fresh(idig) && fresh(v)
      ensures Holds(Reseeded(compress, iv, Blank(), entropy, nonce))
      ensures |entropy| > 0 || nonce == [] ==> Holds(Instantiate(compress, iv, entropy + nonce))
    {
      this.compress := compress;
      this.iv := iv;
      odig := new word[8];
      idig := new word[8];
      v := new word[16](i => if i < 8 then 0x101_0101 else if i == 8 then 0x8000_0000 else if i == 15 then 768 else 0);
      new;
      StartWords();
      ghost var s := Blank();
      assert v[..] == WordsOf(s.v) + DigestTail();
      hide WordsOf, XorPad, Zeros, Hash, Hmac, UpdateState, Round;
      Transform(iv, seq(16, i => 0x3636_3636), idig);
      Transform(iv, seq(16, i => 0x5C5C_5C5C), odig);
      assert idig[..] == idig[..8] && odig[..] == odig[..8];
      Reseed(entropy, nonce, s);
    }

    /** hmac_drbg_reseed: an update, cut short after the first round when there is no entropy. */
    method Reseed(entropy: seq<byte>, addin: seq<byte>, ghost s: State)
      requires Holds(s)
      modifies odig, idig, v
      ensures Holds(Reseeded(compress, iv, s, entropy, addin))
      ensures |entropy| > 0 || addin == [] ==> Holds(UpdateState(compress, iv, s, entropy + addin))
    {
      ghost var data := entropy + addin;
      assert |entropy| == 0 ==> data == addin;
      RoundProper(compress, iv, s, 0, data);
      hide Hash, Hmac, BytesOf, WordsOf, XorPad;
      OneRound(0, entropy, addin, s);
      if |entropy| == 0 {
        return;
      }
      ghost var r := Round(compress, iv, s, 0, data);
      OneRound(1, entropy, addin, r);
    }

    method OneRound(domain: byte, data1: seq<byte>, data2: seq<byte>, ghost s: State)
      requires Holds(s) && (|data1| + |data2| == 0 ==> domain == 0)
      modifies odig, idig, v
      ensures Holds(Round(compress, iv, s, domain, data1 + data2))
    {
      hide Hash, Hmac, BytesOf, WordsOf, XorPad;
      ghost var k := Hmac(compress, iv, s.k, s.v + [domain] + (data1 + data2));
      UpdateK(domain, data1, data2, s);
      UpdateV(State(k, s.v));
    }

    /** Writes up to 32 bytes of V. */
    method Emit(buf: array<byte>, start: nat, len: nat, ghost s: State) returns (i: nat)
      requires Holds(s) && start < len <= buf.Length && (buf as object) != v
      modifies buf
      ensures i == (if len - start < 32 then len else start + 32)
      ensures buf[..i] == old(buf[..start]) + s.v[..i - start]
    {
      hide WordsOf, BytesOf, ByteOf, Holds, DigestTail, XorPad;
      HoldsParts(s);
      ghost var u := s.v;
      WordBytes(u, v[..8]);
      i := start;
      var j := 0;
      while j < 8 && i < len
        invariant 0 <= j <= 8 && i == (if start + 4 * j <= len then start + 4 * j else len)
        invariant forall m :: start <= m < i ==> buf[m] == u[m - start]
        invariant forall m :: 0 <= m < start ==> buf[m] == old(buf[m])
        modifies buf
      {
        i := EmitWord(buf, start, i, j, len, u, v[j]);
        j := j + 1;
      }
    }

    method EmitWord(buf: array<byte>, ghost start: nat, from: nat, ghost j: nat, len: nat, ghost u: seq<byte>, r: word)
        returns (i: nat)
      requires |u| == 32 && j < 8 && from == start + 4 * j < len <= buf.Length
      requires u[4 * j] == ByteOf(r, 3) && u[4 * j + 1] == ByteOf(r, 2)
      requires u[4 * j + 2] == ByteOf(r, 1) && u[4 * j + 3] == ByteOf(r, 0)
      requires forall m :: start <= m < from ==> buf[m] == u[m - start]
      modifies buf
      ensures i == (if from + 4 <= len then from + 4 else len)
      ensures forall m :: start <= m < i ==> buf[m] == u[m - start]
      ensures forall m :: 0 <= m < start ==> buf[m] == old(buf[m])
    {
      hide ByteOf;
      i := from;
      var k := 24;
      while k >= 0 && i < len
        invariant k in {24, 16, 8, 0, -8} && i == from + (24 - k) / 8 <= len
        invariant forall m :: start <= m < i ==> buf[m] == u[m - start]
        invariant forall m :: 0 <= m < start ==> buf[m] == old(buf[m])
        decreases k + 8
      {
        buf[i] := ByteOf(r, k / 8);
        i := i + 1;
        k := k - 8;
      }
    }

    /** One value of V, and as many of its bytes as are still wanted. */
    method Extract(buf: array<byte>, start: nat, len: nat, ghost s: State) returns (i: nat)
      requires Holds(s) && start < len <= buf.Length && (buf as object) != v && (buf as object) != idig
          && (buf as object) != odig
      modifies buf, v
      ensures |Hmac(compress, iv, s.k, s.v)| == 32 && Holds(State(s.k, Hmac(compress, iv, s.k, s.v)))
      ensures i == (if len - start < 32 then len else start + 32)
      ensures buf[..i] == old(buf[..start]) + Hmac(compress, iv, s.k, s.v)[..i - start]
    {
      assert Shape() && Proper(s);
      hide Holds, Hash, Hmac, WordsOf, BytesOf, XorPad;
      ghost var done := buf[..start];
      UpdateV(s);
      assert buf[..start] == done;
      i := Emit(buf, start, len, State(s.k, Hmac(compress, iv, s.k, s.v)));
    }

    /** The loop of hmac_drbg_generate. */
    method Produce(buf: array<byte>, len: nat, ghost s: State) returns (ghost u: seq<byte>)
      requires Holds(s) && len <= buf.Length && {buf as object} !! {odig, idig, v}
      modifies buf, v
      ensures |u| == 32 && Holds(State(s.k, u)) && Proper(s) && Partial(compress, iv, s.k, s.v, len, len, u, buf[..len])
    {
      hide Holds, Hash, Hmac, UpdateState, Generated, Partial, Output, WordsOf, BytesOf, XorPad;
      HoldsParts(s);
      assert (buf as object) != v && (buf as object) != idig && (buf as object) != odig;
      var i := 0;
      u := s.v;
      assert buf[..0] == [];
      StartGenerated(compress, iv, s.k, s.v, len);
      while i < len
        invariant 0 <= i <= len && Holds(State(s.k, u)) && |u| == 32
        invariant Partial(compress, iv, s.k, s.v, len, i, u, buf[..i])
        decreases len - i
      {
        ghost var done, from := buf[..i], i;
        i := Extract(buf, i, len, State(s.k, u));
        ghost var next := Hmac(compress, iv, s.k, u);
        ghost var c := next[..i - from];
        assert buf[..i] == done + c;
        MoreGenerated(compress, iv, s.k, s.v, len, from, u, done, c);
        u := next;
      }
    }

    /** hmac_drbg_generate */
    method Generate(buf: array<byte>, len: nat, ghost s: State)
      requires Holds(s) && len <= buf.Length && {buf as object} !! {odig, idig, v}
      modifies buf, odig, idig, v
      ensures buf[..len] == Output(compress, iv, s, len).0
      ensures Holds(Output(compress, iv, s, len).1)
    {
      assert Shape();
      hide Holds, Hash, Hmac, UpdateState, Generated, Partial, Output, WordsOf, BytesOf, XorPad, Round;
      ghost var u := Produce(buf, len, s);
      FinishGenerated(compress, iv, s, len, u, buf[..len]);
      LastUpdate(compress, iv, State(s.k, u));
      OneRound(0, [], [], State(s.k, u));
    }
  }

  /** After i bytes, u is the last value of V, and what is still to come follows from it. */
  ghost predicate Partial(f: Compression, iv: seq<word>, k: seq<byte>, v: seq<byte>, n: nat, i: nat, u: seq<byte>,
                          b: seq<byte>)
    requires |k| == 32 && |v| == 32 && |u| == 32 && Compresses(f) && |iv| == 8
  {
    var g := Generated(f, iv, k, v, n);
    && i <= n && |b| == i && g.0[..i] == b
    && if i < n then g.0[i..] == Generated(f, iv, k, u, n - i).0 && g.1 == Generated(f, iv, k, u, n - i).1 else g.1 == u
  }

  lemma StartGenerated(f: Compression, iv: seq<word>, k: seq<byte>, v: seq<byte>, n: nat)
    requires |k| == 32 && |v| == 32 && Compresses(f) && |iv| == 8
    ensures Partial(f, iv, k, v, n, 0, v, [])
  {
  }

  lemma MoreGenerated(f: Compression, iv: seq<word>, k: seq<byte>, v: seq<byte>, n: nat, i: nat, u: seq<byte>,
                      b: seq<byte>, c: seq<byte>)
    requires |k| == 32 && |v| == 32 && |u| == 32 && Compresses(f) && |iv| == 8 && i < n
    requires Partial(f, iv, k, v, n, i, u, b) && |Hmac(f, iv, k, u)| == 32
    requires c == Hmac(f, iv, k, u)[..if n - i < 32 then n - i else 32]
    ensures Partial(f, iv, k, v, n, i + |c|, Hmac(f, iv, k, u), b + c)
  {
    hide Hmac;
    var g, h, u' := Generated(f, iv, k, v, n), Generated(f, iv, k, u, n - i), Hmac(f, iv, k, u);
    var r := Generated(f, iv, k, u', if n - i < 32 then 0 else n - i - 32);
    assert h == (u' + r.0, r.1);
    hide Generated;
    assert g.0 == b + h.0;
    assert h.0[..|c|] == c;
    if n - i > 32 {
      assert g.0[i + 32..] == h.0[32..] == r.0;
    } else {
      EmptyGenerated(f, iv, k, u');
    }
  }

  lemma EmptyGenerated(f: Compression, iv: seq<word>, k: seq<byte>, v: seq<byte>)
    requires |k| == 32 && |v| == 32 && Compresses(f) && |iv| == 8
    ensures Generated(f, iv, k, v, 0) == ([], v)
  {
  }

  lemma FinishGenerated(f: Compression, iv: seq<word>, s: State, n: nat, u: seq<byte>, b: seq<byte>)
    requires Proper(s) && |u| == 32 && Compresses(f) && |iv| == 8 && Partial(f, iv, s.k, s.v, n, n, u, b)
    ensures Output(f, iv, s, n) == (b, UpdateState(f, iv, State(s.k, u), []))
  {
    hide UpdateState, Generated;
  }

  lemma LastUpdate(f: Compression, iv: seq<word>, s: State)
    requires Proper(s) && Compresses(f) && |iv| == 8
    ensures UpdateState(f, iv, s, []) == Round(f, iv, s, 0, [] + [])
  {
    var none: seq<byte> := [];
    assert none + none == none;
  }

  lemma WordBytes(u: seq<byte>, w: seq<word>)
    requires |u| == 32 && w == WordsOf(u)
    ensures |w| == 8
    ensures forall j :: 0 <= j < 8 ==> u[4 * j] == ByteOf(w[j], 3) && u[4 * j + 1] == ByteOf(w[j], 2)
    ensures forall j :: 0 <= j < 8 ==> u[4 * j + 2] == ByteOf(w[j], 1) && u[4 * j + 3] == ByteOf(w[j], 0)
  {
    hide ByteOf, JoinBytes;
    forall j | 0 <= j < 8
      ensures u[4 * j] == ByteOf(w[j], 3) && u[4 * j + 1] == ByteOf(w[j], 2)
      ensures u[4 * j + 2] == ByteOf(w[j], 1) && u[4 * j + 3] == ByteOf(w[j], 0)
    {
      JoinedBytes(u[4 * j], u[4 * j + 1], u[4 * j + 2], u[4 * j + 3]);
    }
  }

  /** The words of the initial key and of the initial V. */
  lemma StartWords()
    ensures |XorPad(Zeros(32), 0x36)| == 64 && WordsOf(XorPad(Zeros(32), 0x36)) == seq(16, i => 0x3636_3636)
    ensures |XorPad(Zeros(32), 0x5C)| == 64 && WordsOf(XorPad(Zeros(32), 0x5C)) == seq(16, i => 0x5C5C_5C5C)
    ensures WordsOf(seq(32, i => 1)) == seq(8, i => 0x101_0101)
  {
    assert XorPad(Zeros(32), 0x36) == seq(64, i => 0x36) && XorPad(Zeros(32), 0x5C) == seq(64, i => 0x5C);
    hide XorPad, Zeros;
    RepeatedWords(0x36, 16);
    RepeatedWords(0x5C, 16);
    RepeatedWords(1, 8);
  }

  lemma RepeatedWords(b: byte, n: nat)
    ensures |seq(4 * n, i => b)| % 4 == 0
    ensures WordsOf(seq(4 * n, i => b)) == seq(n, i => b * 0x101_0101)
  {
    var s: seq<byte> := seq(4 * n, i => b);
    hide JoinBytes;
    forall j | 0 <= j < n
      ensures WordsOf(s)[j] == b * 0x101_0101
    {
      assert WordsOf(s)[j] == JoinBytes(b, b, b, b);
    }
  }

  lemma XorWords(x: word, y: word)
    ensures Xor(x, y) < TWO32
  {
    Pow2Values();
    XorBound(x, y, 32);
  }
}
