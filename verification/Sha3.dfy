/** The sponge interface of SHA-3 and Keccak (sha3.c).  The permutation is a parameter. */
module Sha3 {
  import opened Words
  import opened Digits
  import opened BignumConvert
  import opened Streaming

  type Permutation = seq<dword> -> seq<dword>

  /** All that is assumed of sha3_permutation. */
  ghost predicate Permutes(f: Permutation)
  {
    forall h: seq<dword> :: |h| == 25 ==> |f(h)| == 25
  }

  // ----- the state as 200 bytes, eight to a lane, least significant first

  /** Lane j of a block. */
  ghost function LaneValue(m: seq<byte>, j: nat): (x: dword)
    requires 8 * j + 8 <= |m|
  {
    LaneFits(m[8 * j..8 * j + 8]);
    LeValue(m[8 * j..8 * j + 8])
  }

  lemma LaneFits(m: seq<byte>)
    requires |m| == 8
    ensures 0 <= LeValue(m) < TWO64
  {
    SumBound(m, 8, 0x100);
    WeightAdd(0x100, 4, 4);
    assert Weight(0x100, 4) == TWO32;
  }

  ghost function StateByte(h: seq<dword>, n: nat): byte
    requires n < 8 * |h|
  {
    h[n / 8] / Weight(0x100, n % 8) % 0x100
  }

  /** The first n bytes of the state. */
  ghost function Squeeze(h: seq<dword>, n: nat): (d: seq<byte>)
    requires |h| == 25 && n <= 200
    ensures |d| == n
  {
    seq(n, i requires 0 <= i < n => StateByte(h, i))
  }

  /** XORs the bytes of m into the first lanes. */
  ghost function XorBlock(h: seq<dword>, m: seq<byte>): (r: seq<dword>)
    requires |h| == 25 && |m| <= 200
    ensures |r| == 25
  {
    seq(25, j requires 0 <= j < 25 => if 8 * j + 8 <= |m| then XorLane(h[j], LaneValue(m, j)) else h[j])
  }

  // ----- lanes as the code reads, combines and writes them

  function Lane(m: seq<byte>, j: nat): (x: dword)
    requires 8 * j + 7 < |m|
  {
    HalfLane(m, 8 * j) + HalfLane(m, 8 * j + 4) as int * 0x1_0000_0000
  }

  function HalfLane(m: seq<byte>, i: nat): (x: word)
    requires i + 3 < |m|
  {
    m[i] as int + m[i + 1] as int * 0x100 + m[i + 2] as int * 0x1_0000 + m[i + 3] as int * 0x100_0000
  }

  function LaneByte(x: dword, n: nat): (b: byte)
    requires n < 8
  {
    var h := if n < 4 then x % 0x1_0000_0000 else x / 0x1_0000_0000;
    var i := n % 4;
    if i == 0 then h % 0x100 else if i == 1 then h / 0x100 % 0x100
    else if i == 2 then h / 0x1_0000 % 0x100 else h / 0x100_0000
  }

  function XorLane(x: dword, y: dword): (r: dword)
    ensures r == Xor(x, y)
  {
    assert Pow2(64) == 0x1_0000_0000_0000_0000 by {
      Pow2Values();
      Pow2Add(32, 32);
    }
    XorBound(x, y, 64);
    Xor(x, y)
  }

  /** Reading: the lane is the number in its eight bytes. */
  lemma LaneRead(m: seq<byte>, j: nat)
    requires 8 * j + 8 <= |m|
    ensures Lane(m, j) == LaneValue(m, j)
  {
    var s: seq<int> := m[8 * j..8 * j + 8];
    FourDigits(s, 0, HalfLane(m, 8 * j));
    FourDigits(s, 4, HalfLane(m, 8 * j + 4));
    assert Weight(0x100, 0) == 1 && Weight(0x100, 4) == TWO32 && Sum(s, 0, 0x100) == 0;
  }

  /** Writing undoes it: the eight bytes written for a lane have its value. */
  lemma LaneWritten(x: dword, s: seq<byte>)
    requires |s| == 8 && forall n :: 0 <= n < 8 ==> s[n] == LaneByte(x, n)
    ensures LeValue(s) == x
  {
    var t: seq<int> := s;
    var l, h := x % TWO32, x / TWO32;
    HalfWritten(l, s[0], s[1], s[2], s[3]);
    HalfWritten(h, s[4], s[5], s[6], s[7]);
    hide LaneByte;
    FourDigits(t, 0, l);
    FourDigits(t, 4, h);
    assert Weight(0x100, 0) == 1 && Weight(0x100, 4) == TWO32 && Sum(t, 0, 0x100) == 0;
  }

  lemma HalfWritten(h: word, b0: byte, b1: byte, b2: byte, b3: byte)
    requires b0 == h % 0x100 && b1 == h / 0x100 % 0x100 && b2 == h / 0x1_0000 % 0x100 && b3 == h / 0x100_0000
    ensures h == b0 + b1 * 0x100 + b2 * 0x1_0000 + b3 * 0x100_0000
  {
    BytesOfWord(h);
  }

  /** So every byte written is the digit of the lane in base 256. */
  lemma LaneByteDigit(x: dword, n: nat)
    requires n < 8
    ensures LaneByte(x, n) == x / Weight(0x100, n) % 0x100
  {
    var s: seq<byte> := seq(8, i requires 0 <= i < 8 => LaneByte(x, i));
    hide LaneByte, Sum, Weight;
    LaneWritten(x, s);
    DigitAt(s, n, 8, 0x100);
  }

  // ----- absorbing a block, byte by byte

  /** A byte of the state after a block has been added is the XOR of what was there and the byte of the block. */
  lemma BlockBytes(h: seq<dword>, m: seq<byte>, n: nat)
    requires |h| == 25 && |m| <= 200 && |m| % 8 == 0 && n < 200
    ensures StateByte(XorBlock(h, m), n) == if n < |m| then Xor(StateByte(h, n), m[n]) else StateByte(h, n)
  {
    var j := n / 8;
    assert 8 * j + 8 <= |m| <==> n < |m| by {
      DivMod(n, 8);
      DivMod(|m|, 8);
    }
    if n < |m| {
      hide Sum, Weight, LeValue;
      XorDigits(h[j], LaneValue(m, j), n % 8);
      LaneDigit(m[8 * j..8 * j + 8], n % 8);
    }
  }

  /** The state s is h with the bytes of m added to its first bytes. */
  ghost predicate Mixed(h: seq<dword>, m: seq<byte>, s: seq<dword>)
  {
    && |h| == |s| == 25 && |m| <= 200
    && forall n :: 0 <= n < 200 ==>
         StateByte(s, n) == if n < |m| then Xor(StateByte(h, n), m[n]) else StateByte(h, n)
  }

  lemma BlockMixed(h: seq<dword>, m: seq<byte>)
    requires |h| == 25 && |m| <= 200 && |m| % 8 == 0
    ensures Mixed(h, m, XorBlock(h, m))
  {
    hide XorBlock, StateByte, Xor;
    forall n | 0 <= n < 200
      ensures StateByte(XorBlock(h, m), n) == if n < |m| then Xor(StateByte(h, n), m[n]) else StateByte(h, n)
    {
      BlockBytes(h, m, n);
    }
  }

  lemma LaneDigit(s: seq<byte>, i: nat)
    requires |s| == 8 && i < 8
    ensures LeValue(s) / Weight(0x100, i) % 0x100 == s[i]
  {
    DigitAt(s, i, 8, 0x100);
  }

  lemma {:induction false} ByteWeight(i: nat)
    ensures Weight(0x100, i) == Pow2(8 * i)
  {
    if i > 0 {
      ByteWeight(i - 1);
      Pow2Values();
      Pow2Add(8, 8 * (i - 1));
    }
  }

  lemma XorDigits(x: nat, y: nat, i: nat)
    ensures 0 <= x / Weight(0x100, i) % 0x100 && 0 <= y / Weight(0x100, i) % 0x100
    ensures Xor(x, y) / Weight(0x100, i) % 0x100 == Xor(x / Weight(0x100, i) % 0x100, y / Weight(0x100, i) % 0x100)
  {
    Pow2Values();
    hide Xor, Pow2, Weight;
    ByteWeight(i);
    XorDivMod(x, y, 8 * i);
    XorDivMod(Shr(x, 8 * i), Shr(y, 8 * i), 8);
  }

  ghost function Step(f: Permutation): (seq<dword>, seq<byte>) -> seq<dword>
  {
    (h: seq<dword>, m: seq<byte>) => if |h| == 25 && |m| <= 200 then f(XorBlock(h, m)) else h
  }

  ghost function ZeroState(): (h: seq<dword>)
    ensures |h| == 25
  {
    seq(25, i => 0)
  }

  /** The padding for a message of n bytes at a rate of r bytes: the domain bits with the first one of pad10*1,
      zeros, and the last one; in one byte when only one is left. */
  ghost function Padding(n: nat, r: nat, suffix: byte): (s: seq<byte>)
    requires r > 0 && suffix < 0x80
  {
    ModBound(n, r);
    var left := r - n % r;
    if left == 1 then [suffix + 0x80] else [suffix] + Zeros(left - 2) + [0x80]
  }

  lemma PaddingFills(n: nat, r: nat, suffix: byte)
    requires r > 0 && suffix < 0x80
    ensures (n + |Padding(n, r, suffix)|) % r == 0 && 0 < |Padding(n, r, suffix)| <= r
  {
    ModBound(n, r);
    ModAdd(n, |Padding(n, r, suffix)|, r);
  }

  /** Every byte of it: the domain bits come first, the last bit comes last. */
  lemma PaddingAt(n: nat, r: nat, suffix: byte, i: nat)
    requires r > 0 && suffix < 0x80 && i < |Padding(n, r, suffix)|
    ensures var p := Padding(n, r, suffix);
      p[i] == (if i == 0 then suffix else 0) + if i == |p| - 1 then 0x80 else 0
  {
  }

  /** Different messages stay different when they are padded. */
  lemma PaddingInjective(m: seq<byte>, m': seq<byte>, r: nat, suffix: byte)
    requires r > 0 && 0 < suffix < 0x80
    requires m + Padding(|m|, r, suffix) == m' + Padding(|m'|, r, suffix)
    ensures m == m'
  {
    if |m| < |m'| {
      ShorterDiffers(m, m', r, suffix);
    } else if |m'| < |m| {
      ShorterDiffers(m', m, r, suffix);
    }
    PaddingFills(|m|, r, suffix);
    assert m == (m + Padding(|m|, r, suffix))[..|m|] == m';
  }

  /** Where the padding of the longer message begins, that of the shorter one has a zero or the last bit. */
  lemma ShorterDiffers(m: seq<byte>, m': seq<byte>, r: nat, suffix: byte)
    requires r > 0 && 0 < suffix < 0x80 && |m| < |m'|
    ensures m + Padding(|m|, r, suffix) != m' + Padding(|m'|, r, suffix)
  {
    hide Padding;
    var p, p' := Padding(|m|, r, suffix), Padding(|m'|, r, suffix);
    PaddingFills(|m'|, r, suffix);
    if m + p == m' + p' {
      var i := |m'| - |m|;
      assert (m + p)[|m'|] == p[i] && (m' + p')[|m'|] == p'[0];
      PaddingAt(|m|, r, suffix, i);
      PaddingAt(|m'|, r, suffix, 0);
      assert false;
    }
  }

  /** The hash of m: absorb the padded message, then squeeze once. */
  ghost function Hash(f: Permutation, r: nat, suffix: byte, m: seq<byte>): seq<byte>
    requires 0 < r <= 200 && suffix < 0x80 && Permutes(f)
  {
    var h := Absorb(Step(f), ZeroState(), m + Padding(|m|, r, suffix), r);
    if |h| == 25 then Squeeze(h, 100 - r / 2) else []
  }

  lemma {:induction false} AbsorbLength(f: Permutation, m: seq<byte>, r: nat)
    requires 0 < r <= 200 && Permutes(f)
    ensures |Absorb(Step(f), ZeroState(), m, r)| == 25
    decreases |m|
  {
    if |m| >= r {
      AbsorbLength(f, m[..|m| - r], r);
      var h, x := Absorb(Step(f), ZeroState(), m[..|m| - r], r), m[|m| - r..];
      assert Absorb(Step(f), ZeroState(), m, r) == Step(f)(h, x) == f(XorBlock(h, x));
    }
  }

  /** A capacity of twice the digest: the rate and the digest length belong together. */
  lemma RateAndDigest(bits: nat)
    requires bits in {224, 256, 384, 512}
    ensures var r := (1600 - 2 * bits) / 8;
      r in {72, 104, 136, 144} && r % 8 == 0 && 100 - r / 2 == bits / 8 < r
  {
  }

  class Sha3Ctx {
    const permutation: Permutation
    const hash: array<dword>
    const message: array<byte>
    var rest: word
    const blockSize: nat

    /** keccak_Init, for a digest of 224, 256, 384 or 512 bits. */
    constructor (permutation: Permutation, bits: nat)
      requires Permutes(permutation) && bits in {224, 256, 384, 512}
      ensures this.permutation == permutation && blockSize == (1600 - 2 * bits) / 8 && Shape() && !Finalized()
      ensures Holds([]) && fresh(hash) && fresh(message)
    {
      this.permutation := permutation;
      hash := new dword[25](i => 0);
      message := new byte[192](i => 0);
      rest := 0;
      blockSize := (1600 - 2 * bits) / 8;
      new;
      RateAndDigest(bits);
      Started();
    }

    lemma Started()
      requires Shape() && rest == 0 && forall i :: 0 <= i < 25 ==> hash[i] == 0
      ensures Holds([])
    {
      hide Streamed, Step, Permutes;
      CopyDone(hash, ZeroState());
      Start(Step(permutation), ZeroState(), blockSize, message[..]);
    }

    ghost predicate Shape()
    {
      hash.Length == 25 && message.Length == 192 && Permutes(permutation) && blockSize in {72, 104, 136, 144}
    }

    /** The context after the message m, in whatever pieces. */
    ghost predicate Holds(m: seq<byte>)
      reads this`rest, hash, message
    {
      && Shape() && rest == |m| % blockSize
      && Streamed(Step(permutation), ZeroState(), m, blockSize, hash[..], message[..])
    }

    method XorLanes(block: seq<byte>, from: nat, to: nat)
      requires Shape() && from <= to <= 25 && 8 * to <= |block|
      modifies hash
      ensures forall j :: from <= j < to ==> hash[j] == XorLane(old(hash[j]), LaneValue(block, j))
      ensures forall j :: 0 <= j < 25 && !(from <= j < to) ==> hash[j] == old(hash[j])
    {
      hide XorLane, Lane, LaneValue;
      var i := from;
      while i < to
        invariant from <= i <= to
        invariant forall j :: from <= j < i ==> hash[j] == XorLane(old(hash[j]), LaneValue(block, j))
        invariant forall j :: 0 <= j < 25 && !(from <= j < i) ==> hash[j] == old(hash[j])
      {
        LaneRead(block, i);
        hash[i] := XorLane(hash[i], Lane(block, i));
        i := i + 1;
      }
    }

    /** sha3_process_block: the number of lanes follows from the block size. */
    method ProcessBlock(block: seq<byte>)
      requires Shape() && |block| == blockSize
      modifies hash
      ensures hash[..] == Step(permutation)(old(hash[..]), block)
      ensures exists s :: Mixed(old(hash[..]), block, s) && hash[..] == permutation(s)
    {
      hide XorLane, LaneValue, Mixed;
      ghost var h := hash[..];
      XorLanes(block, 0, 9);
      if blockSize > 72 {
        XorLanes(block, 9, 13);
        if blockSize > 104 {
          XorLanes(block, 13, 17);
          if blockSize > 136 {
            XorLanes(block, 17, 18);
          }
        }
      }
      assert hash[..] == XorBlock(h, block);
      BlockMixed(h, block);
      var next := permutation(hash[..]);
      var j := 0;
      while j < 25
        invariant 0 <= j <= 25 && forall i :: 0 <= i < j ==> hash[i] == next[i]
      {
        hash[j] := next[j];
        j := j + 1;
      }
      assert hash[..] == next;
    }

    /** memcpy into the buffer. */
    method Fill(at: nat, x: seq<byte>)
      requires Shape() && at + |x| <= blockSize
      modifies message
      ensures message[..at] == old(message[..at]) && message[at..at + |x|] == x
    {
      var j := 0;
      while j < |x|
        invariant 0 <= j <= |x|
        invariant forall i :: 0 <= i < at ==> message[i] == old(message[i])
        invariant forall i :: 0 <= i < j ==> message[at + i] == x[i]
      {
        message[at + j] := x[j];
        j := j + 1;
      }
    }

    /** Bytes that leave room in the buffer. */
    method FillPart(used: nat, x: seq<byte>, ghost m: seq<byte>)
      requires Shape() && Streamed(Step(permutation), ZeroState(), m, blockSize, hash[..], message[..])
      requires used == |m| % blockSize && used + |x| < blockSize
      modifies message
      ensures Streamed(Step(permutation), ZeroState(), m + x, blockSize, hash[..], message[..])
    {
      hide Streamed, Step;
      ghost var b := message[..];
      Fill(used, x);
      Extend(Step(permutation), ZeroState(), m, blockSize, hash[..], b, x, message[..]);
    }

    /** Bytes that make the buffer full. */
    method FillBlock(used: nat, x: seq<byte>, ghost m: seq<byte>)
      requires Shape() && Streamed(Step(permutation), ZeroState(), m, blockSize, hash[..], message[..])
      requires used == |m| % blockSize && used + |x| == blockSize
      modifies hash, message
      ensures Streamed(Step(permutation), ZeroState(), m + x, blockSize, hash[..], message[..])
      ensures |m + x| % blockSize == 0
    {
      hide Streamed, Step, Mixed;
      ghost var h, b := hash[..], message[..];
      Fill(used, x);
      assert message[..blockSize] == b[..used] + x;
      ProcessBlock(message[..blockSize]);
      Complete(Step(permutation), ZeroState(), m, blockSize, h, b, x, message[..blockSize], message[..]);
      ModAdd(|m|, |x|, blockSize);
    }

    /** Whole blocks, taken from the message without copying, and what is left over. */
    method UpdateBlocks(msg: seq<byte>, start: nat, ghost m: seq<byte>, ghost done0: seq<byte>)
      requires Shape() && Streamed(Step(permutation), ZeroState(), done0, blockSize, hash[..], message[..])
      requires start <= |msg| && |done0| % blockSize == 0 && done0 == m + msg[..start]
      modifies hash, message
      ensures Streamed(Step(permutation), ZeroState(), m + msg, blockSize, hash[..], message[..])
    {
      hide Streamed, Step, Mixed;
      var at := start;
      ghost var done := done0;
      while |msg| - at >= blockSize
        invariant start <= at <= |msg| && |done| % blockSize == 0 && done == m + msg[..at]
        invariant Streamed(Step(permutation), ZeroState(), done, blockSize, hash[..], message[..])
      {
        var piece := msg[at..at + blockSize];
        ghost var h := hash[..];
        ProcessBlock(piece);
        assert message[..0] + piece == piece;
        Complete(Step(permutation), ZeroState(), done, blockSize, h, message[..], piece, piece, message[..]);
        ModAdd(|done|, |piece|, blockSize);
        Advance(m, msg, at, at + blockSize);
        done := done + piece;
        at := at + blockSize;
      }
      Advance(m, msg, at, |msg|);
      if at < |msg| {
        FillPart(0, msg[at..], done);
      }
    }

    ghost predicate Finalized()
      reads this`rest
    {
      rest == 0x8000_0000
    }

    /** Feeds a piece of the message; a finalized context ignores it. */
    method Update(msg: seq<byte>, ghost m: seq<byte>)
      requires Shape() && (Finalized() || Holds(m))
      modifies this`rest, hash, message
      ensures old(Finalized()) ==> Finalized() && hash[..] == old(hash[..]) && message[..] == old(message[..])
      ensures !old(Finalized()) ==> Holds(m + msg)
    {
      hide Streamed, Step;
      var idx := rest;
      ModBound(|m|, blockSize);
      if rest / 0x8000_0000 % 2 == 1 {
        return;
      }
      RestOfSum(|m|, |msg|, blockSize);
      ModBound(|m + msg|, blockSize);
      rest := (rest as int + |msg|) % blockSize;
      var at := 0;
      ghost var done := m;
      Advance(m, msg, 0, 0);
      if idx > 0 {
        var left := blockSize - idx;
        if |msg| < left {
          FillPart(idx, msg, m);
          return;
        }
        FillBlock(idx, msg[..left], m);
        at := left;
        done := m + msg[..left];
      }
      UpdateBlocks(msg, at, m, done);
    }

    /** Clears the buffer from a position on. */
    method Clear(from: nat)
      requires Shape() && from <= blockSize
      modifies message
      ensures message[..from] == old(message[..from]) && message[from..blockSize] == Zeros(blockSize - from)
    {
      var j := from;
      while j < blockSize
        invariant from <= j <= blockSize
        invariant forall i :: 0 <= i < from ==> message[i] == old(message[i])
        invariant forall i :: from <= i < j ==> message[i] == 0
      {
        message[j] := 0;
        j := j + 1;
      }
    }

    /** Writes the padding behind the bytes in the buffer. */
    method WritePadding(used: nat, suffix: byte, ghost n: nat)
      requires Shape() && used == n % blockSize && used < blockSize && 0 < suffix < 0x80
      modifies message
      ensures message[..used] == old(message[..used])
      ensures message[used..blockSize] == Padding(n, blockSize, suffix)
    {
      OrLastBit(suffix);
      hide Or, Padding;
      Clear(used);
      ghost var z := message[used..blockSize];
      assert forall i :: used <= i < blockSize ==> message[i] == z[i - used] == 0;
      message[used] := Or(message[used], suffix);
      message[blockSize - 1] := Or(message[blockSize - 1], 0x80);
      PaddingBytes(message[used..blockSize], n, blockSize, suffix);
    }

    /** The padding and the last block. */
    method Pad(suffix: byte, ghost m: seq<byte>)
      requires Holds(m) && 0 < suffix < 0x80
      modifies this`rest, hash, message
      ensures Shape() && Finalized()
      ensures hash[..] == Absorb(Step(permutation), ZeroState(), m + Padding(|m|, blockSize, suffix), blockSize)
    {
      hide Streamed, Step, Padding, Absorb, Permutes, ZeroState, Mixed;
      ModBound(|m|, blockSize);
      ghost var x := Padding(|m|, blockSize, suffix);
      PaddingFills(|m|, blockSize, suffix);
      PaddingLength(|m|, blockSize, suffix);
      ghost var used, h, b := rest as int, hash[..], message[..];
      WritePadding(rest, suffix, |m|);
      assert message[..blockSize] == b[..used] + x;
      ProcessBlock(message[..blockSize]);
      Complete(Step(permutation), ZeroState(), m, blockSize, h, b, x, message[..blockSize], message[..]);
      AllAbsorbed(Step(permutation), ZeroState(), m + x, blockSize, hash[..], message[..]);
      rest := 0x8000_0000;
    }

    /** The first bytes of the state. */
    method WriteDigest(result: array<byte>)
      requires Shape() && result.Length == 100 - blockSize / 2 && result != message
      modifies result
      ensures result[..] == Squeeze(hash[..], result.Length)
    {
      hide LaneByte, Weight;
      var j := 0;
      while j < result.Length
        invariant 0 <= j <= result.Length
        invariant forall i :: 0 <= i < j ==> result[i] == StateByte(hash[..], i)
        modifies result
      {
        LaneByteDigit(hash[j / 8], j % 8);
        result[j] := LaneByte(hash[j / 8], j % 8);
        j := j + 1;
      }
    }

    /** sha3_Final and keccak_Final: they differ in the domain bits only.  A finalized context is not padded again. */
    method Final(suffix: byte, result: array<byte>, ghost m: seq<byte>)
      requires Shape() && (Finalized() || Holds(m)) && 0 < suffix < 0x80
      requires result.Length == 100 - blockSize / 2 && result != message
      modifies this`rest, hash, message, result
      ensures Shape() && Finalized()
      ensures result[..] == if old(Finalized()) then Squeeze(old(hash[..]), result.Length)
                            else Hash(permutation, blockSize, suffix, m)
    {
      if !Finalized() {
        NotFinalized(this, m);
      }
      hide Streamed, Step, Absorb, Padding, Squeeze;
      if rest / 0x8000_0000 % 2 == 0 {
        Pad(suffix, m);
      }
      WriteDigest(result);
    }

    method Sha3Final(result: array<byte>, ghost m: seq<byte>)
      requires Shape() && (Finalized() || Holds(m)) && result.Length == 100 - blockSize / 2 && result != message
      modifies this`rest, hash, message, result
      ensures Shape() && Finalized()
      ensures result[..] == if old(Finalized()) then Squeeze(old(hash[..]), result.Length)
                            else Hash(permutation, blockSize, 0x06, m)
    {
      Final(0x06, result, m);
    }

    method KeccakFinal(result: array<byte>, ghost m: seq<byte>)
      requires Shape() && (Finalized() || Holds(m)) && result.Length == 100 - blockSize / 2 && result != message
      modifies this`rest, hash, message, result
      ensures Shape() && Finalized()
      ensures result[..] == if old(Finalized()) then Squeeze(old(hash[..]), result.Length)
                            else Hash(permutation, blockSize, 0x01, m)
    {
      Final(0x01, result, m);
    }
  }

  lemma OrLastBit(suffix: byte)
    requires suffix < 0x80
    ensures Or(0, suffix) == suffix && Or(suffix, 0x80) == suffix + 0x80 && Or(0, 0x80) == 0x80
  {
    assert Pow2(7) == 0x80;
    OrDisjoint(suffix, 0x80, 7);
  }

  lemma PaddingBytes(s: seq<byte>, n: nat, r: nat, suffix: byte)
    requires r > 0 && suffix < 0x80 && |s| == r - n % r > 0
    requires forall i :: 0 < i < |s| - 1 ==> s[i] == 0
    requires s[0] == (if |s| == 1 then suffix + 0x80 else suffix) && (|s| > 1 ==> s[|s| - 1] == 0x80)
    ensures s == Padding(n, r, suffix)
  {
  }

  lemma PaddingLength(n: nat, r: nat, suffix: byte)
    requires r > 0 && suffix < 0x80
    ensures n % r + |Padding(n, r, suffix)| == r
  {
  }

  lemma RestOfSum(n: nat, x: nat, r: nat)
    requires r > 0
    ensures (n % r + x) % r == (n + x) % r
  {
    DivMod(n, r);
    DivMod(n % r + x, r);
    var p, q := n / r, (n % r + x) / r;
    assert n + x == (p + q) * r + (n % r + x) % r;
    DivModUnique(n + x, r, p + q, (n % r + x) % r);
  }

  // ----- any sequence of pieces

  /** However a message is cut into pieces, updating with them one after the other and finishing gives the hash of
      the whole message; keccak_256 is the case of one piece and the suffix 0x01. */
  method HashPieces(permutation: Permutation, bits: nat, suffix: byte, pieces: seq<seq<byte>>, result: array<byte>)
    requires Permutes(permutation) && bits in {224, 256, 384, 512} && 0 < suffix < 0x80 && result.Length == bits / 8
    modifies result
    ensures result[..] == Hash(permutation, (1600 - 2 * bits) / 8, suffix, Concat(pieces))
  {
    RateAndDigest(bits);
    hide Hash, Streamed, Step, Permutes, Sha3Ctx.Holds, Concat;
    ConcatEnds(pieces);
    var ctx := new Sha3Ctx(permutation, bits);
    var i := 0;
    while i < |pieces|
      invariant 0 <= i <= |pieces| && ctx.Holds(Concat(pieces[..i])) && ctx.Shape() && !ctx.Finalized()
      invariant fresh(ctx.hash) && fresh(ctx.message) && fresh(ctx)
    {
      ctx.Update(pieces[i], Concat(pieces[..i]));
      ConcatStep(pieces, i);
      NotFinalized(ctx, Concat(pieces[..i + 1]));
      i := i + 1;
    }
    ctx.Final(suffix, result, Concat(pieces));
  }

  lemma NotFinalized(ctx: Sha3Ctx, m: seq<byte>)
    requires ctx.Holds(m)
    ensures !ctx.Finalized()
  {
    ModBound(|m|, ctx.blockSize);
  }
}
