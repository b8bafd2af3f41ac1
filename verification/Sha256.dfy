/** The streaming interface of SHA-256 (sha2.c).  The compression function is a parameter. */
module Sha256 {
  import opened Words
  import opened Digits
  import opened BignumConvert
  import opened Streaming

  type Compression = (seq<word>, seq<word>) -> seq<word>

  /** All that is assumed of sha256_Transform. */
  ghost predicate Compresses(f: Compression)
  {
    forall h: seq<word>, b: seq<word> :: |h| == 8 && |b| == 16 ==> |f(h, b)| == 8
  }

  /** Big-endian words of a run of bytes, and back. */
  ghost function WordsOf(m: seq<byte>): (w: seq<word>)
    requires |m| % 4 == 0
    ensures |w| == |m| / 4
  {
    seq(|m| / 4, j requires 0 <= j < |m| / 4 => JoinBytes(m[4 * j], m[4 * j + 1], m[4 * j + 2], m[4 * j + 3]))
  }

  ghost function BytesOf(w: seq<word>): (m: seq<byte>)
    ensures |m| == 4 * |w|
  {
    seq(4 * |w|, i requires 0 <= i < 4 * |w| => ByteOf(w[i / 4], 3 - i % 4))
  }

  /** One block of 64 bytes. */
  ghost function Step(f: Compression): (seq<word>, seq<byte>) -> seq<word>
  {
    (h: seq<word>, m: seq<byte>) => if |m| == 64 then f(h, WordsOf(m)) else h
  }

  /** The bit length of n bytes in two words, most significant first; only its low 64 bits are kept. */
  ghost function BitLength(n: nat): (w: seq<word>)
    ensures |w| == 2
  {
    DivMod(8 * n, TWO64);
    var l := 8 * n % TWO64;
    DivMod(l, TWO32);
    [l / TWO32, l % TWO32]
  }

  lemma PaddedLength(n: nat)
    ensures 0 <= (55 - n) % 64 < 64 && (n + 1 + (55 - n) % 64 + 8) % 64 == 0
  {
    DivMod(55 - n, 64);
    DivModUnique(n + 1 + (55 - n) % 64 + 8, 64, 1 - (55 - n) / 64, 0);
  }

  /** Section 5.1.1 of FIPS 180-4 for a message of n bytes: a one bit, zeros, and the bit length in 64 bits. */
  ghost function Padding(n: nat): (s: seq<byte>)
    ensures (n + |s|) % 64 == 0
  {
    PaddedLength(n);
    [0x80] + Zeros((55 - n) % 64) + BytesOf(BitLength(n))
  }

  /** Section 6.2 of FIPS 180-4, starting from any chaining value. */
  ghost function Hash(f: Compression, iv: seq<word>, m: seq<byte>): seq<byte>
  {
    BytesOf(Absorb(Step(f), iv, m + Padding(|m|), 64))
  }

  /** The number of zeros is the smallest that makes the padded length a multiple of 512 bits. */
  lemma PaddingShortest(n: nat, k: nat)
    requires (8 * n + 8 + 8 * k) % 512 == 448
    ensures |Padding(n)| <= 1 + k + 8
  {
    var q := (8 * n + 8 + 8 * k) / 512;
    DivMod(8 * n + 8 + 8 * k, 512);
    DivMod(k, 64);
    DivModUnique(55 - n, 64, k / 64 - q, k % 64);
  }

  /** Every byte of the padding: 0x80, zeros, and the number of bits modulo 2^64, most significant byte first. */
  lemma PaddingMeans(n: nat)
    ensures var p := Padding(n);
      && |p| >= 9 && p[0] == 0x80 && (forall i :: 0 < i < |p| - 8 ==> p[i] == 0)
      && BeValue(p[|p| - 8..]) == 8 * n % TWO64
  {
    var l := BytesOf(BitLength(n));
    PaddedLength(n);
    assert Padding(n)[|Padding(n)| - 8..] == l;
    DivMod(8 * n % TWO64, TWO32);
    BytesBigEndian(BitLength(n), 0);
    BytesBigEndian(BitLength(n), 1);
    hide BeValue, BytesOf, Padding;
    TwoWords(l);
  }

  lemma TwoWords(l: seq<byte>)
    requires |l| == 8
    ensures BeValue(l) == BeValue(l[0..4]) * TWO32 + BeValue(l[4..8])
  {
    BeSplit(l, 4);
    assert l[..4] == l[0..4] && l[4..] == l[4..8] && Weight(0x100, 4) == TWO32;
  }

  /** A big-endian number is its first bytes, scaled by the number of the others, and the others. */
  lemma BeSplit(s: seq<byte>, k: nat)
    requires k <= |s|
    ensures BeValue(s) == BeValue(s[..k]) * Weight(0x100, |s| - k) + BeValue(s[k..])
  {
    var n := |s| - k;
    var r: seq<int> := Reversed(s);
    hide Sum, Weight;
    SumSplit(r, n, |s|, 0x100);
    SumSame(r, Reversed(s[k..]), n, 0x100);
    SumSame(r[n..], Reversed(s[..k]), k, 0x100);
  }

  lemma FourBytes(s: seq<byte>)
    requires |s| == 4
    ensures BeValue(s) == JoinBytes(s[0], s[1], s[2], s[3])
  {
    var r: seq<int> := Reversed(s);
    FourDigits(r, 0, JoinBytes(s[0], s[1], s[2], s[3]));
    assert Sum(r, 0, 0x100) == 0 && Weight(0x100, 0) == 1;
  }

  /** Words and bytes are big-endian (section 3.1 of FIPS 180-4). */
  lemma WordsBigEndian(m: seq<byte>, j: nat)
    requires |m| % 4 == 0 && 4 * j + 4 <= |m|
    ensures WordsOf(m)[j] == BeValue(m[4 * j..4 * j + 4])
  {
    hide BeValue, JoinBytes;
    FourBytes(m[4 * j..4 * j + 4]);
  }

  lemma BytesBigEndian(w: seq<word>, j: nat)
    requires j < |w|
    ensures BeValue(BytesOf(w)[4 * j..4 * j + 4]) == w[j]
  {
    hide BeValue, JoinBytes, ByteOf;
    BytesOfWord(w[j]);
    FourBytes(BytesOf(w)[4 * j..4 * j + 4]);
  }

  /** Different messages stay different when they are padded, however long they are. */
  lemma PaddingInjective(m: seq<byte>, m': seq<byte>)
    requires m + Padding(|m|) == m' + Padding(|m'|)
    ensures m == m'
  {
    hide Padding;
    var p, p' := Padding(|m|), Padding(|m'|);
    PaddingMeans(|m|);
    PaddingMeans(|m'|);
    PaddingBound(|m|);
    PaddingBound(|m'|);
    var s := m + p;
    assert s[|s| - 8..] == p[|p| - 8..] && (m' + p')[|s| - 8..] == p'[|p'| - 8..];
    SameLength(|m|, |m'|);
    assert m == s[..|m|] && m' == (m' + p')[..|m|];
  }

  lemma PaddingBound(n: nat)
    ensures 9 <= |Padding(n)| <= 72
  {
    PaddedLength(n);
  }

  lemma SameLength(n: nat, n': nat)
    requires 8 * n % TWO64 == 8 * n' % TWO64 && -72 <= n - n' <= 72
    ensures n == n'
  {
    DivMod(8 * n, TWO64);
    DivMod(8 * n', TWO64);
    var e := 8 * n / TWO64 - 8 * n' / TWO64;
    assert 8 * (n - n') == TWO64 * e;
  }

  // ----- bytes and words in memory

  /** Word j of memory in host (little-endian) order. */
  ghost function HostWord(m: seq<byte>, j: nat): word
    requires 4 * j + 3 < |m|
  {
    JoinBytes(m[4 * j + 3], m[4 * j + 2], m[4 * j + 1], m[4 * j])
  }

  ghost function HostWords(m: seq<byte>): (w: seq<word>)
    requires |m| == 64
    ensures |w| == 16 && forall j :: 0 <= j < 16 ==> w[j] == HostWord(m, j)
  {
    seq(16, j requires 0 <= j < 16 => HostWord(m, j))
  }

  /** Word j of memory in network (big-endian) order. */
  ghost function NetWord(m: seq<byte>, j: nat): word
    requires 4 * j + 3 < |m|
  {
    JoinBytes(m[4 * j], m[4 * j + 1], m[4 * j + 2], m[4 * j + 3])
  }

  /** Converts n words in place to host byte order. */
  method ReverseWords(a: array<byte>, n: nat)
    requires a.Length == 64 && n <= 16
    modifies a
    ensures forall j :: 0 <= j < n ==> HostWord(a[..], j) == NetWord(old(a[..]), j)
    ensures forall i :: 4 * n <= i < 64 ==> a[i] == old(a[i])
  {
    hide JoinBytes;
    var j := 0;
    while j < n
      invariant 0 <= j <= n
      invariant forall i :: 0 <= i < j ==> HostWord(a[..], i) == NetWord(old(a[..]), i)
      invariant forall i :: 4 * j <= i < 64 ==> a[i] == old(a[i])
    {
      a[4 * j], a[4 * j + 1], a[4 * j + 2], a[4 * j + 3] := a[4 * j + 3], a[4 * j + 2], a[4 * j + 1], a[4 * j];
      j := j + 1;
    }
  }

  method LoadWords(a: array<byte>) returns (w: seq<word>)
    requires a.Length == 64
    ensures w == HostWords(a[..])
  {
    hide JoinBytes;
    w := [];
    while |w| < 16
      invariant |w| <= 16 && forall j :: 0 <= j < |w| ==> w[j] == HostWord(a[..], j)
      decreases 16 - |w|
    {
      var j := |w|;
      w := w + [JoinBytes(a[4 * j + 3], a[4 * j + 2], a[4 * j + 1], a[4 * j])];
    }
  }

  method StoreWord(a: array<byte>, j: nat, x: word)
    requires a.Length == 64 && j < 16
    modifies a
    ensures HostWord(a[..], j) == x
    ensures forall i :: 0 <= i < 64 && i / 4 != j ==> a[i] == old(a[i])
  {
    a[4 * j], a[4 * j + 1], a[4 * j + 2], a[4 * j + 3] := ByteOf(x, 0), ByteOf(x, 1), ByteOf(x, 2), ByteOf(x, 3);
    BytesOfWord(x);
  }

  // ----- the context

  class Sha256Ctx {
    const compress: Compression
    const state: array<word>
    var bitcount: dword
    const buffer: array<byte>

    constructor (compress: Compression, iv: seq<word>)
      requires Compresses(compress) && |iv| == 8
      ensures this.compress == compress && Holds(iv, []) && fresh(state) && fresh(buffer)
    {
      this.compress := compress;
      state := new word[8](i requires 0 <= i < 8 => iv[i]);
      buffer := new byte[64](i => 0);
      bitcount := 0;
      new;
      CopyDone(state, iv);
      Started(iv);
    }

    lemma Started(iv: seq<word>)
      requires Shape() && |iv| == 8 && bitcount == 0 && state[..] == iv
      ensures Holds(iv, [])
    {
      hide Streamed, Step;
      Start(Step(compress), iv, 64, buffer[..]);
    }

    /** A context in the middle of a message: its chaining value, the bytes not yet processed and their count. */
    constructor Resume(compress: Compression, h: seq<word>, tail: seq<byte>, bitcount: dword,
                       ghost iv: seq<word>, ghost m: seq<byte>)
      requires Compresses(compress) && |h| == 8 && |iv| == 8 && |tail| < 64 && bitcount == 8 * |m| % TWO64
      requires h == Absorb(Step(compress), iv, Full(m, 64), 64) && tail == Tail(m, 64)
      ensures this.compress == compress && Holds(iv, m) && fresh(state) && fresh(buffer)
    {
      this.compress := compress;
      state := new word[8](i requires 0 <= i < 8 => h[i]);
      buffer := new byte[64](i => if 0 <= i < |tail| then tail[i] else 0);
      this.bitcount := bitcount;
      new;
      CopyDone(state, h);
      assert buffer[..|tail|] == tail;
    }

    ghost predicate Shape()
    {
      state.Length == 8 && buffer.Length == 64 && Compresses(compress)
    }

    /** The context after the message m, in whatever pieces, starting from the chaining value iv. */
    ghost predicate Holds(iv: seq<word>, m: seq<byte>)
      reads this, state, buffer
    {
      && Shape() && |iv| == 8 && bitcount == 8 * |m| % TWO64
      && Streamed(Step(compress), iv, m, 64, state[..], buffer[..])
    }

    /** sha256_Transform(context->state, context->buffer, context->state) */
    method Transform()
      requires Shape()
      modifies state
      ensures state[..] == compress(old(state[..]), HostWords(buffer[..]))
    {
      var block := LoadWords(buffer);
      var next := compress(state[..], block);
      var j := 0;
      while j < 8
        invariant 0 <= j <= 8 && forall i :: 0 <= i < j ==> state[i] == next[i]
      {
        state[j] := next[j];
        j := j + 1;
      }
      assert state[..] == next;
    }

    /** memcpy into the buffer. */
    method Fill(at: nat, x: seq<byte>)
      requires Shape() && at + |x| <= 64
      modifies buffer
      ensures buffer[..at] == old(buffer[..at]) && buffer[at..at + |x|] == x
      ensures forall i :: at + |x| <= i < 64 ==> buffer[i] == old(buffer[i])
    {
      var j := 0;
      while j < |x|
        invariant 0 <= j <= |x|
        invariant forall i :: 0 <= i < 64 && !(at <= i < at + j) ==> buffer[i] == old(buffer[i])
        invariant forall i :: 0 <= i < j ==> buffer[at + i] == x[i]
      {
        buffer[at + j] := x[j];
        j := j + 1;
      }
    }

    /** Reverses the sixteen words of a full buffer and feeds them to the compression function. */
    method ProcessBuffer()
      requires Shape()
      modifies state, buffer
      ensures state[..] == Step(compress)(old(state[..]), old(buffer[..]))
    {
      hide JoinBytes;
      ReverseWords(buffer, 16);
      assert HostWords(buffer[..]) == WordsOf(old(buffer[..]));
      Transform();
    }

    /** Copies the bytes that make the buffer full, counts them and processes the block. */
    method FillBlock(used: nat, x: seq<byte>, ghost iv: seq<word>, ghost m: seq<byte>)
      requires Holds(iv, m) && used == |m| % 64 && used + |x| == 64
      modifies this`bitcount, state, buffer
      ensures Holds(iv, m + x) && |m + x| % 64 == 0
    {
      hide Streamed, Step;
      ghost var h, b := state[..], buffer[..];
      Fill(used, x);
      bitcount := (bitcount + |x| * 8) % TWO64;
      ghost var block := buffer[..];
      ProcessBuffer();
      CompleteBlock(iv, m, h, b, x, block, buffer[..]);
      CountBytes(|m|, |x|);
      ModAdd(|m|, |x|, 64);
    }

    /** Copies bytes that leave room in the buffer and counts them. */
    method FillPart(used: nat, x: seq<byte>, ghost iv: seq<word>, ghost m: seq<byte>)
      requires Holds(iv, m) && used == |m| % 64 && used + |x| < 64
      modifies this`bitcount, buffer
      ensures Holds(iv, m + x)
    {
      hide Streamed, Step;
      ghost var b := buffer[..];
      Fill(used, x);
      bitcount := (bitcount + |x| * 8) % TWO64;
      Extend(Step(compress), iv, m, 64, state[..], b, x, buffer[..]);
      CountBytes(|m|, |x|);
    }

    /** Feeds a piece of the message of any length. */
    method Update(data: seq<byte>, ghost iv: seq<word>, ghost m: seq<byte>)
      requires Holds(iv, m)
      modifies this`bitcount, state, buffer
      ensures Holds(iv, m + data)
    {
      if |data| == 0 {
        assert m + data == m;
        return;
      }
      UsedSpace(bitcount, |m|);
      hide Holds;
      var usedspace := bitcount / 8 % 64;
      var at := 0;
      ghost var done := m;
      if usedspace > 0 {
        var freespace := 64 - usedspace;
        if |data| >= freespace {
          FillBlock(usedspace, data[..freespace], iv, m);
          at := freespace;
          done := m + data[..freespace];
        } else {
          FillPart(usedspace, data, iv, m);
          return;
        }
      } else {
        Advance(m, data, 0, 0);
      }
      UpdateBlocks(data, at, iv, m, done);
    }

    /** The rest of sha256_Update: whole blocks, and what is left over. */
    method UpdateBlocks(data: seq<byte>, start: nat, ghost iv: seq<word>, ghost m: seq<byte>, ghost done0: seq<byte>)
      requires start <= |data| && Holds(iv, done0) && |done0| % 64 == 0 && done0 == m + data[..start]
      modifies this`bitcount, state, buffer
      ensures Holds(iv, m + data)
    {
      hide Holds;
      var at := start;
      ghost var done := done0;
      while |data| - at >= 64
        invariant 0 <= at <= |data| && |done| % 64 == 0 && done == m + data[..at]
        invariant Holds(iv, done)
      {
        ghost var piece := data[at..at + 64];
        FillBlock(0, data[at..at + 64], iv, done);
        Advance(m, data, at, at + 64);
        done := done + piece;
        at := at + 64;
      }
      Advance(m, data, at, |data|);
      if at < |data| {
        FillPart(0, data[at..], iv, done);
      }
    }

    /** Clears the buffer from one position to another. */
    method Clear(from: nat, to: nat)
      requires Shape() && from <= to <= 64
      modifies buffer
      ensures buffer[from..to] == Zeros(to - from)
      ensures forall i :: 0 <= i < 64 && !(from <= i < to) ==> buffer[i] == old(buffer[i])
    {
      var j := from;
      while j < to
        invariant from <= j <= to
        invariant forall i :: 0 <= i < 64 && !(from <= i < j) ==> buffer[i] == old(buffer[i])
        invariant forall i :: from <= i < j ==> buffer[i] == 0
      {
        buffer[j] := 0;
        j := j + 1;
      }
    }

    /** The last transform: 56 bytes of the buffer and the bit count. */
    method LastBlock()
      requires Shape()
      modifies state, buffer
      ensures state[..] == Step(compress)(old(state[..]), old(buffer[..56])
          + BytesOf([bitcount / TWO32, bitcount % TWO32]))
    {
      ghost var b := buffer[..];
      ghost var last := b[..56] + BytesOf([bitcount / TWO32, bitcount % TWO32]);
      ReverseWords(buffer, 14);
      ghost var c := buffer[..];
      StoreWord(buffer, 14, bitcount / TWO32);
      ghost var d := buffer[..];
      StoreWord(buffer, 15, bitcount % TWO32);
      LastWords(b, c, d, buffer[..], bitcount / TWO32, bitcount % TWO32);
      Transform();
    }

    /** Appends the one bit and, when the length no longer fits, processes the block. */
    method AppendOne(used: nat, ghost iv: seq<word>, ghost m: seq<byte>) returns (usedspace: nat, ghost x: seq<byte>)
      requires Holds(iv, m) && used == |m| % 64
      modifies state, buffer
      ensures Streamed(Step(compress), iv, m + x, 64, state[..], buffer[..])
      ensures x == (if used > 55 then [0x80] + Zeros(63 - used) else [])
      ensures usedspace == (if used > 55 then 0 else used + 1) && (used <= 55 ==> buffer[used] == 0x80)
      ensures |m + x| % 64 == if used > 55 then 0 else used
    {
      hide Streamed, Step;
      ghost var h, b := state[..], buffer[..];
      buffer[used] := 0x80;
      usedspace := used + 1;
      x := [];
      if usedspace > 56 {
        Clear(usedspace, 64);
        ghost var block := buffer[..];
        x := [0x80] + Zeros(63 - used);
        assert block[used..64] == x;
        ProcessBuffer();
        CompleteBlock(iv, m, h, b, x, block, buffer[..]);
        ModAdd(|m|, |x|, 64);
        usedspace := 0;
      } else {
        assert m + [] == m;
        assert |x| == 0 && buffer[..used] == b[..used] && buffer[used..used] == x;
        Extend(Step(compress), iv, m, 64, h, b, x, buffer[..]);
      }
    }

    /** Clears the rest of the buffer, appends the length and processes the last block. */
    method AppendLength(usedspace: nat, ghost iv: seq<word>, ghost m: seq<byte>, ghost x: seq<byte>)
      requires Shape() && |iv| == 8 && bitcount == 8 * |m| % TWO64
      requires Streamed(Step(compress), iv, m + x, 64, state[..], buffer[..])
      requires x == (if |m| % 64 > 55 then [0x80] + Zeros(63 - |m| % 64) else [])
      requires usedspace == (if |m| % 64 > 55 then 0 else |m| % 64 + 1)
      requires |m| % 64 <= 55 ==> buffer[|m| % 64] == 0x80
      requires |m + x| % 64 == if |m| % 64 > 55 then 0 else |m| % 64
      modifies state, buffer
      ensures state[..] == Absorb(Step(compress), iv, m + Padding(|m|), 64)
    {
      hide Streamed, Step, Padding;
      ghost var h, b, used := state[..], buffer[..], |m + x| % 64;
      Clear(usedspace, 56);
      ghost var l := BytesOf(BitLength(|m|));
      ghost var y, last := buffer[used..56] + l, buffer[..56] + l;
      LastBlock();
      assert last[..used] == b[..used] && last[used..64] == y;
      CompleteBlock(iv, m + x, h, b, y, last, buffer[..]);
      PaddingSplit(|m|, x, y);
      Associate(m, x, y);
      AllAbsorbed(Step(compress), iv, m + Padding(|m|), 64, state[..], buffer[..]);
    }

    /** Writes the digest and leaves the context to be thrown away. */
    method Final(digest: array<byte>, ghost iv: seq<word>, ghost m: seq<byte>)
      requires Holds(iv, m) && digest.Length == 32 && digest != buffer
      modifies state, buffer, digest
      ensures digest[..] == Hash(compress, iv, m)
    {
      UsedSpace(bitcount, |m|);
      hide Streamed, Step, Padding;
      ghost var x;
      var usedspace;
      usedspace, x := AppendOne(bitcount / 8 % 64, iv, m);
      AppendLength(usedspace, iv, m, x);
      WriteDigest(digest);
    }

    method WriteDigest(digest: array<byte>)
      requires Shape() && digest.Length == 32 && digest != buffer
      modifies digest
      ensures digest[..] == BytesOf(state[..])
    {
      hide ByteOf;
      var j := 0;
      while j < 8
        invariant 0 <= j <= 8
        invariant forall i :: 0 <= i < 4 * j ==> digest[i] == ByteOf(state[i / 4], 3 - i % 4)
      {
        digest[4 * j], digest[4 * j + 1] := ByteOf(state[j], 3), ByteOf(state[j], 2);
        digest[4 * j + 2], digest[4 * j + 3] := ByteOf(state[j], 1), ByteOf(state[j], 0);
        j := j + 1;
      }
    }

    lemma CompleteBlock(iv: seq<word>, m: seq<byte>, h: seq<word>, b: seq<byte>, x: seq<byte>, block: seq<byte>,
        b': seq<byte>)
      requires Streamed(Step(compress), iv, m, 64, h, b) && |b| == |block| == |b'| == 64
      requires |m| % 64 + |x| == 64 && block[..|m| % 64] == b[..|m| % 64] && block[|m| % 64..64] == x
      ensures Streamed(Step(compress), iv, m + x, 64, Step(compress)(h, block), b')
    {
      hide Streamed;
      assert block == b[..|m| % 64] + x;
      Complete(Step(compress), iv, m, 64, h, b, x, block, b');
    }
  }

  /** The position in the buffer survives a wrap-around of the bit counter. */
  lemma UsedSpace(bitcount: int, n: nat)
    requires bitcount == 8 * n % TWO64
    ensures bitcount / 8 % 64 == n % 64
  {
    DivMod(8 * n, TWO64);
    var q := 8 * n / TWO64;
    assert bitcount == 8 * (n - 0x2000_0000_0000_0000 * q);
    DivModUnique(bitcount, 8, n - 0x2000_0000_0000_0000 * q, 0);
    DivMod(n, 64);
    DivModUnique(n - 0x2000_0000_0000_0000 * q, 64, n / 64 - 0x80_0000_0000_0000 * q, n % 64);
  }

  lemma CountBytes(n: nat, x: nat)
    ensures (8 * n % TWO64 + x * 8) % TWO64 == 8 * (n + x) % TWO64
  {
    DivMod(8 * n, TWO64);
    DivMod(8 * (n + x), TWO64);
    DivModUnique(8 * n % TWO64 + x * 8, TWO64, 8 * (n + x) / TWO64 - 8 * n / TWO64, 8 * (n + x) % TWO64);
  }

  lemma Associate(m: seq<byte>, x: seq<byte>, y: seq<byte>)
    ensures (m + x) + y == m + (x + y)
  {
  }

  /** The padding is what the two clearings and the bit count leave behind. */
  lemma PaddingSplit(n: nat, x: seq<byte>, y: seq<byte>)
    requires x == (if n % 64 > 55 then [0x80] + Zeros(63 - n % 64) else [])
    requires |y| == 64 - (n + |x|) % 64
    requires y[|y| - 8..] == BytesOf(BitLength(n))
    requires y[..|y| - 8] == (if n % 64 > 55 then Zeros(56) else [0x80] + Zeros(55 - n % 64))
    ensures x + y == Padding(n)
  {
    DivMod(n, 64);
    if n % 64 > 55 {
      DivModUnique(55 - n, 64, -(n / 64) - 1, 119 - n % 64);
      assert Zeros(63 - n % 64) + Zeros(56) == Zeros(119 - n % 64);
    } else {
      DivModUnique(55 - n, 64, -(n / 64), 55 - n % 64);
    }
    assert y == y[..|y| - 8] + y[|y| - 8..];
  }

  lemma LastWords(b: seq<byte>, c: seq<byte>, d: seq<byte>, e: seq<byte>, hi: word, lo: word)
    requires |b| == |c| == |d| == |e| == 64
    requires forall j :: 0 <= j < 14 ==> HostWord(c, j) == NetWord(b, j)
    requires HostWord(d, 14) == hi && forall i :: 0 <= i < 64 && i / 4 != 14 ==> d[i] == c[i]
    requires HostWord(e, 15) == lo && forall i :: 0 <= i < 64 && i / 4 != 15 ==> e[i] == d[i]
    ensures HostWords(e) == WordsOf(b[..56] + BytesOf([hi, lo]))
  {
    hide JoinBytes, ByteOf;
    var l := BytesOf([hi, lo]);
    var last := b[..56] + l;
    BytesOfWord(hi);
    BytesOfWord(lo);
    forall j | 0 <= j < 16
      ensures HostWord(e, j) == WordsOf(last)[j]
    {
      if j < 14 {
        assert HostWord(e, j) == HostWord(c, j);
      }
    }
  }

  // ----- any sequence of pieces

  /** However a message is cut into pieces, updating with them one after the other and finishing gives the hash of
      the whole message. */
  method HashPieces(compress: Compression, iv: seq<word>, pieces: seq<seq<byte>>, digest: array<byte>)
    requires Compresses(compress) && |iv| == 8 && digest.Length == 32
    modifies digest
    ensures digest[..] == Hash(compress, iv, Concat(pieces))
  {
    hide Hash, Sha256Ctx.Holds, Concat;
    var ctx := new Sha256Ctx(compress, iv);
    UpdatePieces(ctx, pieces, iv);
    ctx.Final(digest, iv, Concat(pieces));
  }

  method UpdatePieces(ctx: Sha256Ctx, pieces: seq<seq<byte>>, ghost iv: seq<word>)
    requires ctx.Holds(iv, [])
    modifies ctx`bitcount, ctx.state, ctx.buffer
    ensures ctx.Holds(iv, Concat(pieces))
  {
    hide Sha256Ctx.Holds, Concat;
    ConcatEnds(pieces);
    var i := 0;
    while i < |pieces|
      invariant 0 <= i <= |pieces| && ctx.Holds(iv, Concat(pieces[..i]))
    {
      ConcatStep(pieces, i);
      ctx.Update(pieces[i], iv, Concat(pieces[..i]));
      i := i + 1;
    }
  }
}
