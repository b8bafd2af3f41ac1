/** HMAC (RFC 2104) over SHA-256, and how precomputed chaining values stand for its key. */
module Rfc2104 {
  import opened Words
  import opened BignumConvert
  import opened Streaming
  import opened Sha256

  /** The key, filled up to a block with zeros, XORed with a repeated byte. */
  ghost function XorPad(k: seq<byte>, b: byte): (p: seq<byte>)
    requires |k| <= 64
    ensures |p| == 64
  {
    seq(64, i requires 0 <= i < 64 => PadByte(k, b, i))
  }

  ghost function PadByte(k: seq<byte>, b: byte, i: nat): byte
  {
    XorByte(if i < |k| then k[i] else 0, b)
  }

  function XorByte(x: byte, y: byte): byte
  {
    Pow2Values();
    XorBound(x, y, 8);
    Xor(x, y)
  }

  /** Section 2 of RFC 2104 for a key of at most one block. */
  ghost function Hmac(f: Compression, iv: seq<word>, k: seq<byte>, m: seq<byte>): seq<byte>
    requires |k| <= 64
  {
    Hash(f, iv, XorPad(k, 0x5C) + Hash(f, iv, XorPad(k, 0x36) + m))
  }

  // ----- hashing with a first block that is already absorbed

  lemma FirstBlock(f: Compression, iv: seq<word>, block: seq<byte>)
    requires |block| == 64
    ensures Absorb(Step(f), iv, block, 64) == f(iv, WordsOf(block))
  {
    assert block[..0] == [] && block[0..] == block;
    assert Absorb(Step(f), iv, block, 64) == Step(f)(Absorb(Step(f), iv, [], 64), block);
  }

  /** After one block, the hash continues from its chaining value; only the length counts the block. */
  lemma HashAfterBlock(f: Compression, iv: seq<word>, block: seq<byte>, m: seq<byte>)
    requires |block| == 64
    ensures (|m| + |Padding(64 + |m|)|) % 64 == 0
    ensures Hash(f, iv, block + m) == BytesOf(Absorb(Step(f), f(iv, WordsOf(block)), m + Padding(64 + |m|), 64))
  {
    var p := Padding(64 + |m|);
    FirstBlock(f, iv, block);
    assert (64 + |m| + |p|) % 64 == 0;
    assert (|m| + |p|) % 64 == 0;
    AbsorbAppend(Step(f), iv, block, m + p, 64);
    assert (block + m) + p == block + (m + p);
  }

  /** The same when a single further block is left. */
  lemma HashTwoBlocks(f: Compression, iv: seq<word>, block: seq<byte>, m: seq<byte>)
    requires |block| == 64 && |m + Padding(64 + |m|)| == 64
    ensures Hash(f, iv, block + m) == BytesOf(f(f(iv, WordsOf(block)), WordsOf(m + Padding(64 + |m|))))
  {
    HashAfterBlock(f, iv, block, m);
    FirstBlock(f, f(iv, WordsOf(block)), m + Padding(64 + |m|));
  }

  // ----- words and bytes

  lemma WordAt(m: seq<byte>, j: nat)
    requires |m| % 4 == 0 && 4 * j + 4 <= |m|
    ensures WordsOf(m)[j] == JoinBytes(m[4 * j], m[4 * j + 1], m[4 * j + 2], m[4 * j + 3])
  {
  }

  lemma ByteAt(w: seq<word>, i: nat)
    requires i < 4 * |w|
    ensures BytesOf(w)[i] == ByteOf(w[i / 4], 3 - i % 4)
  {
  }

  lemma WordsOfConcat(a: seq<byte>, b: seq<byte>)
    requires |a| % 4 == 0 && |b| % 4 == 0
    ensures |a + b| % 4 == 0 && WordsOf(a + b) == WordsOf(a) + WordsOf(b)
  {
    hide JoinBytes;
    DivMod(|a|, 4);
    DivMod(|b|, 4);
    DivModUnique(|a| + |b|, 4, |a| / 4 + |b| / 4, 0);
    assert |WordsOf(a + b)| == |a| / 4 + |b| / 4;
    forall j | 0 <= j < |a| / 4 + |b| / 4
      ensures WordsOf(a + b)[j] == (WordsOf(a) + WordsOf(b))[j]
    {
      if j >= |a| / 4 {
        assert (a + b)[4 * j] == b[4 * (j - |a| / 4)];
        assert (a + b)[4 * j + 1] == b[4 * (j - |a| / 4) + 1];
        assert (a + b)[4 * j + 2] == b[4 * (j - |a| / 4) + 2];
        assert (a + b)[4 * j + 3] == b[4 * (j - |a| / 4) + 3];
      }
    }
  }

  lemma WordsOfBytes(w: seq<word>)
    ensures |BytesOf(w)| % 4 == 0 && WordsOf(BytesOf(w)) == w
  {
    hide JoinBytes, ByteOf;
    forall j | 0 <= j < |w|
      ensures WordsOf(BytesOf(w))[j] == w[j]
    {
      BytesOfWord(w[j]);
    }
  }

  lemma BytesOfWords(m: seq<byte>)
    requires |m| % 4 == 0
    ensures BytesOf(WordsOf(m)) == m
  {
    var w := WordsOf(m);
    assert 4 * |w| == |m|;
    forall i | 0 <= i < |m|
      ensures BytesOf(w)[i] == m[i]
    {
      var j := i / 4;
      assert w[j] == JoinBytes(m[4 * j], m[4 * j + 1], m[4 * j + 2], m[4 * j + 3]);
      hide JoinBytes;
      JoinedBytes(m[4 * j], m[4 * j + 1], m[4 * j + 2], m[4 * j + 3]);
    }
  }

  lemma JoinedBytes(b3: byte, b2: byte, b1: byte, b0: byte)
    ensures var w := JoinBytes(b3, b2, b1, b0);
      ByteOf(w, 3) == b3 && ByteOf(w, 2) == b2 && ByteOf(w, 1) == b1 && ByteOf(w, 0) == b0
  {
    hide JoinBytes;
    var w := JoinBytes(b3, b2, b1, b0);
    DivModUnique(w, 0x100, b3 * 0x1_0000 + b2 * 0x100 + b1, b0);
    DivModUnique(w, 0x1_0000, b3 * 0x100 + b2, b1 * 0x100 + b0);
    DivModUnique(w, 0x100_0000, b3, b2 * 0x1_0000 + b1 * 0x100 + b0);
    DivModUnique(b3 * 0x1_0000 + b2 * 0x100 + b1, 0x100, b3 * 0x100 + b2, b1);
    DivModUnique(b3 * 0x100 + b2, 0x100, b3, b2);
  }

  // ----- XOR on words and on their bytes

  /** XOR with a repeated byte works on each byte. */
  lemma XorWord(b3: byte, b2: byte, b1: byte, b0: byte, c: byte)
    ensures Xor(JoinBytes(b3, b2, b1, b0), c * 0x101_0101)
         == JoinBytes(XorByte(b3, c), XorByte(b2, c), XorByte(b1, c), XorByte(b0, c))
  {
    Pow2Values();
    hide JoinBytes, Xor, Pow2;
    var e := Pow2(8);
    XorSplit(b2 + e * b3, c + e * c, b2, c, b3, c, 8);
    XorSplit(b1 + e * (b2 + e * b3), c + e * (c + e * c), b1, c, b2 + e * b3, c + e * c, 8);
    XorSplit(b0 + e * (b1 + e * (b2 + e * b3)), c + e * (c + e * (c + e * c)), b0, c,
             b1 + e * (b2 + e * b3), c + e * (c + e * c), 8);
  }
}
