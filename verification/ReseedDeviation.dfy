/** Where hmac_drbg_reseed (hmac_drbg.c) departs from HMAC_DRBG_Update of NIST SP 800-90A: it stops after the first
    round when there is no entropy, even if there is additional input. */
module ReseedDeviation {
  import opened Words
  import opened BignumConvert
  import opened Streaming
  import opened Sha256
  import opened Rfc2104
  import opened HmacDrbg

  /** Eight words that differ in the first. */
  ghost function Marked(x: word): (h: seq<word>)
    ensures |h| == 8
  {
    [x, 0, 0, 0, 0, 0, 0, 0]
  }

  /** A compression function that tells the first block, a digest and any other message apart: after the first
      block it passes a padded digest through, and otherwise remembers the byte after the first 32. */
  ghost function Telling(): (f: Compression)
    ensures Compresses(f)
  {
    (h: seq<word>, b: seq<word>) =>
      if |b| != 16 then h
      else if h == Marked(0) then Marked(1)
      else if h != Marked(1) then h
      else if b[8] == 0x8000_0000 then b[..8]
      else Marked(2 + b[8] / 0x100_0000)
  }

  lemma BlockMark(b: seq<word>)
    requires |b| == 16
    ensures Telling()(Marked(0), b) == Marked(1)
  {
  }

  /** Digests pass through an HMAC unchanged. */
  lemma DigestPasses(k: seq<byte>, x: seq<byte>)
    requires |k| == 32 && |x| == 32
    ensures Hash(Telling(), Marked(0), XorPad(k, 0x36) + x) == x
    ensures Hash(Telling(), Marked(0), XorPad(k, 0x5C) + x) == x
  {
    var f := Telling();
    var w := WordsOf(x);
    assert |w| == 8 && (w + DigestTail())[8] == 0x8000_0000 && (w + DigestTail())[..8] == w;
    hide WordsOf, BytesOf, Hash, XorPad, DigestTail;
    HmacOfDigest(f, Marked(0), k, x, w);
    assert f(Marked(0), WordsOf(XorPad(k, 0x36))) == Marked(1);
    assert f(Marked(0), WordsOf(XorPad(k, 0x5C))) == Marked(1);
    assert f(Marked(1), w + DigestTail()) == w;
    BytesOfWords(x);
  }

  /** Once a message has left its mark, further blocks do not change it. */
  lemma {:induction false} MarkStays(x: word, m: seq<byte>)
    requires x >= 2
    ensures Absorb(Step(Telling()), Marked(x), m, 64) == Marked(x)
    decreases |m|
  {
    if |m| >= 64 {
      MarkStays(x, m[..|m| - 64]);
      var b := m[|m| - 64..];
      assert Absorb(Step(Telling()), Marked(x), m, 64) == Step(Telling())(Marked(x), b);
      assert Marked(x)[0] == x && Marked(0)[0] == 0 && Marked(1)[0] == 1;
      assert Step(Telling())(Marked(x), b) == Telling()(Marked(x), WordsOf(b)) == Marked(x);
    }
  }

  /** The mark of V || domain || data is the domain byte. */
  lemma MarkOf(k: seq<byte>, v: seq<byte>, domain: byte, data: seq<byte>)
    requires |k| == 32 && |v| == 32 && domain <= 1 && data != []
    ensures Hash(Telling(), Marked(0), XorPad(k, 0x36) + (v + [domain] + data)) == BytesOf(Marked(2 + domain))
  {
    hide Hash, XorPad, BytesOf, WordsOf, Padding, Telling, Marked, Absorb, Step;
    var f, m := Telling(), v + [domain] + data;
    var p := m + Padding(64 + |m|);
    assert m[32] == domain && p[32] == domain && |m| > 0;
    BlockMark(WordsOf(XorPad(k, 0x36)));
    HashAfterBlock(f, Marked(0), XorPad(k, 0x36), m);
    BlockFits(|p|, 64);
    MarkedRun(p, domain);
  }

  lemma MarkedRun(p: seq<byte>, domain: byte)
    requires |p| >= 64 && |p| % 64 == 0 && domain <= 1 && p[32] == domain
    ensures Absorb(Step(Telling()), Marked(1), p, 64) == Marked(2 + domain)
  {
    hide Telling, Marked, Absorb, Step;
    FirstBlockMark(p, domain);
    MarkStays(2 + domain, p[64..]);
    assert p == p[..64] + p[64..];
    AbsorbAppend(Step(Telling()), Marked(1), p[..64], p[64..], 64);
  }

  lemma FirstBlockMark(p: seq<byte>, domain: byte)
    requires |p| >= 64 && |p| % 64 == 0 && domain <= 1 && p[32] == domain
    ensures |p[64..]| % 64 == 0
    ensures Absorb(Step(Telling()), Marked(1), p[..64], 64) == Marked(2 + domain)
  {
    var b := p[..64];
    FirstBlock(Telling(), Marked(1), b);
    WordAt(b, 8);
    assert b[32] == domain;
    hide JoinBytes;
    var x := WordsOf(b)[8];
    assert x == JoinBytes(domain, b[33], b[34], b[35]);
    DivModUnique(x, 0x100_0000, domain, b[33] as int * 0x1_0000 + b[34] as int * 0x100 + b[35]);
  }

  /** Under this compression function a second round changes the key. */
  lemma RoundsDiffer(s: State, data: seq<byte>)
    requires HmacDrbg.Proper(s) && data != []
    ensures UpdateState(Telling(), Marked(0), s, data) != Round(Telling(), Marked(0), s, 0, data)
  {
    var f, iv := Telling(), Marked(0);
    RoundKey(s, 0, data);
    RoundProper(f, iv, s, 0, data);
    var r := Round(f, iv, s, 0, data);
    RoundKey(r, 1, data);
    RoundProper(f, iv, r, 1, data);
    MarksDiffer();
    hide Round, Telling, Marked, BytesOf;
  }

  lemma MarksDiffer()
    ensures BytesOf(Marked(2)) != BytesOf(Marked(3))
  {
    assert Marked(2)[0] == 2 && Marked(3)[0] == 3;
    hide BytesOf, WordsOf;
    WordsOfBytes(Marked(2));
    WordsOfBytes(Marked(3));
  }

  lemma RoundKey(s: State, domain: byte, data: seq<byte>)
    requires HmacDrbg.Proper(s) && domain <= 1 && data != []
    ensures Round(Telling(), Marked(0), s, domain, data).k == BytesOf(Marked(2 + domain))
  {
    hide Hash, XorPad, BytesOf;
    MarkOf(s.k, s.v, domain, data);
    DigestPasses(s.k, BytesOf(Marked(2 + domain)));
  }

  /** Reseeding conforms for every compression function, initial value and state exactly when there is entropy or
      there is nothing to mix in. */
  lemma ReseedConforms(entropy: seq<byte>, addin: seq<byte>)
    ensures (forall f: Compression, iv: seq<word>, s: State | Compresses(f) && |iv| == 8 && HmacDrbg.Proper(s) ::
               Reseeded(f, iv, s, entropy, addin) == UpdateState(f, iv, s, entropy + addin))
       <==> (|entropy| > 0 || addin == [])
  {
    if |entropy| == 0 && addin != [] {
      var s := State(Zeros(32), Zeros(32));
      RoundsDiffer(s, addin);
      assert entropy + addin == addin;
      assert Reseeded(Telling(), Marked(0), s, entropy, addin) != UpdateState(Telling(), Marked(0), s, entropy + addin);
    }
    if |entropy| == 0 && addin == [] {
      assert entropy + addin == addin;
    }
  }
}
