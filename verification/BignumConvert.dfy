/** Conversion between 32 bytes and nine 30-bit limbs (bignum.c), in both byte orders. */
module BignumConvert {
  import opened Words
  import opened Digits
  import opened Congruence
  import opened BignumBasics

  /** The integer written in n bytes, least significant byte first. */
  ghost function LeValue(s: seq<byte>): int
  {
    Sum(s, |s|, 0x100)
  }

  ghost function Reversed(s: seq<byte>): (r: seq<byte>)
    ensures |r| == |s| && forall i :: 0 <= i < |s| ==> r[i] == s[|s| - 1 - i]
  {
    seq(|s|, i requires 0 <= i < |s| => s[|s| - 1 - i])
  }

  /** The integer written in n bytes, most significant byte first. */
  ghost function BeValue(s: seq<byte>): int
  {
    LeValue(Reversed(s))
  }

  /** Four bytes as a word, built with shifts and ORs; b3 is the most significant byte. */
  function JoinBytes(b3: byte, b2: byte, b1: byte, b0: byte): (r: word)
    ensures r == b3 * 0x100_0000 + b2 * 0x1_0000 + b1 * 0x100 + b0
  {
    JoinLemma(b3, b2, b1, b0);
    Or(Or(Or(b3 * 0x100_0000, b2 * 0x1_0000), b1 * 0x100), b0)
  }

  lemma JoinLemma(b3: byte, b2: byte, b1: byte, b0: byte)
    ensures Or(Or(Or(b3 * 0x100_0000, b2 * 0x1_0000), b1 * 0x100), b0)
         == b3 * 0x100_0000 + b2 * 0x1_0000 + b1 * 0x100 + b0 < TWO32
  {
    Pow2Values();
    hide Or, Pow2;
    assert Pow2(24) == 0x100_0000 by {
      Pow2Add(8, 16);
    }
    OrDisjoint(b2 * 0x1_0000, b3 * 0x100_0000, 24);
    OrDisjoint(b1 * 0x100, b3 * 0x100_0000 + b2 * 0x1_0000, 16);
    OrDisjoint(b0, b3 * 0x100_0000 + b2 * 0x1_0000 + b1 * 0x100, 8);
  }

  function ByteOf(x: word, n: nat): (b: byte)
    requires n < 4
  {
    if n == 0 then x % 0x100 else if n == 1 then x / 0x100 % 0x100
    else if n == 2 then x / 0x1_0000 % 0x100 else x / 0x100_0000
  }

  // ----- words of 32 bits against limbs of 30 bits

  /** Word i of the 256-bit integer written most significant byte first. */
  ghost function BeWord(s: seq<byte>, i: nat): word
    requires |s| == 32 && i < 8
  {
    JoinBytes(s[4 * (7 - i)], s[4 * (7 - i) + 1], s[4 * (7 - i) + 2], s[4 * (7 - i) + 3])
  }

  ghost function LeWord(s: seq<byte>, i: nat): word
    requires |s| == 32 && i < 8
  {
    JoinBytes(s[4 * i + 3], s[4 * i + 2], s[4 * i + 1], s[4 * i])
  }

  lemma {:induction false} WeightRegroup(n: nat)
    ensures Weight(0x100, 4 * n) == Weight(TWO32, n)
    ensures Weight(BASE, n) * Pow2(2 * n) == Weight(TWO32, n)
  {
    if n > 0 {
      WeightRegroup(n - 1);
      FourBytesUp(4 * (n - 1));
      TwoBitsUp(2 * (n - 1));
      Rescale(Weight(BASE, n - 1), Pow2(2 * (n - 1)));
    }
  }

  lemma FourBytesUp(n: nat)
    ensures Weight(0x100, n + 4) == TWO32 * Weight(0x100, n)
  {
    assert Weight(0x100, n + 2) == 0x1_0000 * Weight(0x100, n);
    assert Weight(0x100, n + 4) == 0x1_0000 * Weight(0x100, n + 2);
  }

  lemma TwoBitsUp(n: nat)
    ensures Pow2(n + 2) == 4 * Pow2(n)
  {
  }

  lemma Rescale(w: int, q: int)
    ensures (BASE * w) * (4 * q) == TWO32 * (w * q)
  {
  }

  /** Four bytes to a word do not change the value. */
  lemma {:induction false} BytesToWords(b: seq<int>, w: seq<int>, n: nat)
    requires 4 * n <= |b| && n <= |w|
    requires forall i :: 0 <= i < n ==>
        w[i] == b[4 * i] + b[4 * i + 1] * 0x100 + b[4 * i + 2] * 0x1_0000 + b[4 * i + 3] * 0x100_0000
    ensures Sum(b, 4 * n, 0x100) == Sum(w, n, TWO32)
  {
    if n > 0 {
      BytesToWords(b, w, n - 1);
      WeightRegroup(n - 1);
      FourDigits(b, 4 * (n - 1), w[n - 1]);
      assert Sum(w, n, TWO32) == Sum(w, n - 1, TWO32) + w[n - 1] * Weight(TWO32, n - 1);
      hide Sum, Weight;
    }
  }

  lemma FourDigits(b: seq<int>, m: nat, x: int)
    requires m + 4 <= |b| && x == b[m] + b[m + 1] * 0x100 + b[m + 2] * 0x1_0000 + b[m + 3] * 0x100_0000
    ensures Sum(b, m + 4, 0x100) == Sum(b, m, 0x100) + x * Weight(0x100, m)
  {
    var v := Weight(0x100, m);
    assert Weight(0x100, m + 1) == 0x100 * v;
    assert Weight(0x100, m + 2) == 0x1_0000 * v;
    assert Weight(0x100, m + 3) == 0x100_0000 * v;
    assert Sum(b, m + 1, 0x100) == Sum(b, m, 0x100) + b[m] * v;
    assert Sum(b, m + 2, 0x100) == Sum(b, m + 1, 0x100) + b[m + 1] * (0x100 * v);
    assert Sum(b, m + 3, 0x100) == Sum(b, m + 2, 0x100) + b[m + 2] * (0x1_0000 * v);
    assert Sum(b, m + 4, 0x100) == Sum(b, m + 3, 0x100) + b[m + 3] * (0x100_0000 * v);
    hide Sum, Weight;
    FourTerms(b[m], b[m + 1], b[m + 2], b[m + 3], v);
  }

  lemma FourTerms(a: int, b: int, c: int, d: int, v: int)
    ensures a * v + b * (0x100 * v) + c * (0x1_0000 * v) + d * (0x100_0000 * v)
         == (a + b * 0x100 + c * 0x1_0000 + d * 0x100_0000) * v
  {
  }

  lemma Rearrange(x: int, q: int, v: int)
    ensures (x * q) * v == x * (v * q)
  {
  }

  /** Words as columns of 30-bit weight. */
  ghost function WordColumns(w: seq<int>): (c: seq<int>)
    ensures |c| == |w| && forall i :: 0 <= i < |w| ==> c[i] == w[i] * Pow2(2 * i)
  {
    seq(|w|, i requires 0 <= i < |w| => w[i] * Pow2(2 * i))
  }

  lemma {:induction false} WordColumnsValue(w: seq<int>, n: nat)
    requires n <= |w|
    ensures Sum(WordColumns(w), n, BASE) == Sum(w, n, TWO32)
  {
    if n > 0 {
      WordColumnsValue(w, n - 1);
      WeightRegroup(n - 1);
      var c, v, q := WordColumns(w), Weight(BASE, n - 1), Pow2(2 * (n - 1));
      assert Sum(c, n, BASE) == Sum(c, n - 1, BASE) + (w[n - 1] * q) * v;
      assert Sum(w, n, TWO32) == Sum(w, n - 1, TWO32) + w[n - 1] * Weight(TWO32, n - 1);
      hide Sum, Weight, Pow2;
      Rearrange(w[n - 1], q, v);
    }
  }

  /** A limb splits at the digit boundary: s * e == 2^30. */
  lemma SplitAtLimb(temp: nat, limb: nat, s: nat, e: nat)
    requires s > 0 && e > 0 && s * e == BASE && temp < s
    ensures limb / e * BASE + (temp + limb % e * s) == temp + limb * s
    ensures 0 <= temp + limb % e * s < BASE
  {
    DivMod(limb, e);
    Distribute(limb % e, limb / e, e, s);
    Product(s, 0, limb % e);
    Product(s, limb % e, e - 1);
    assert (e - 1) * s == BASE - s;
  }

  /** Losing the bits above 2^32 does not change the low 30 bits. */
  lemma WrapKeepsLimb(temp: nat, limb: nat, s: nat, e: nat)
    requires s > 0 && e > 0 && s * e == BASE && temp < s
    ensures (temp + (limb * s) % TWO32) % BASE == temp + limb % e * s
  {
    SplitAtLimb(temp, limb, s, e);
    var u := limb * s;
    DivMod(u, TWO32);
    DivModUnique(temp + u % TWO32, BASE, limb / e - 4 * (u / TWO32), temp + limb % e * s);
  }

  /** The bits of a word that overflow limb i are carried into limb i + 1. */
  lemma ReadStep(temp: nat, limb: word, i: nat)
    requires i < 8 && temp < Pow2(2 * i)
    ensures Or(temp, Shl32(limb, 2 * i)) < TWO32
    ensures Shr(limb, 30 - 2 * i) < Pow2(2 * (i + 1))
    ensures Shr(limb, 30 - 2 * i) * BASE + Or(temp, Shl32(limb, 2 * i)) % BASE == temp + limb * Pow2(2 * i)
  {
    Pow2Values();
    hide Pow2, Or;
    var s, e := Pow2(2 * i), Pow2(30 - 2 * i);
    Pow2Add(2 * i, 30 - 2 * i);
    Pow2Add(30 - 2 * i, 2 * (i + 1));
    Pow2Add(2 * i, 32 - 2 * i);
    Pow2Mono(2 * i, 32);
    SplitAtLimb(temp, limb, s, e);
    WrapKeepsLimb(temp, limb, s, e);
    WrapMultiple(limb, s, Pow2(32 - 2 * i));
    OrDisjoint(temp, Shl32(limb, 2 * i), 2 * i);
    OrBound(temp, Shl32(limb, 2 * i), 32);
    QuotientBelow(limb, e, Pow2(2 * (i + 1)));
  }

  lemma WrapMultiple(x: nat, s: nat, f: nat)
    requires s > 0 && f > 0 && s * f == TWO32
    ensures (x * s) % TWO32 % s == 0
  {
    DivMod(x * s, TWO32);
    var k := x * s / TWO32;
    assert k * (s * f) == (k * f) * s;
    assert (x - k * f) * s == x * s - (k * f) * s;
    DivModUnique((x * s) % TWO32, s, x - k * f, 0);
  }

  lemma QuotientBelow(x: nat, d: nat, m: nat)
    requires d > 0 && x < d * m
    ensures x / d < m
  {
    DivMod(x, d);
    if x / d >= m {
      Product(d, m, x / d);
      assert false;
    }
  }

  // ----- reading

  method ReadBe(data: array<byte>, off: nat) returns (r: word)
    requires off + 4 <= data.Length
    ensures r == JoinBytes(data[off], data[off + 1], data[off + 2], data[off + 3])
  {
    r := JoinBytes(data[off], data[off + 1], data[off + 2], data[off + 3]);
  }

  method ReadLe(data: array<byte>, off: nat) returns (r: word)
    requires off + 4 <= data.Length
    ensures r == JoinBytes(data[off + 3], data[off + 2], data[off + 1], data[off])
  {
    r := JoinBytes(data[off + 3], data[off + 2], data[off + 1], data[off]);
  }

  ghost function BeWords(s: seq<byte>): (w: seq<word>)
    requires |s| == 32
    ensures |w| == 8 && forall i :: 0 <= i < 8 ==> w[i] == BeWord(s, i)
  {
    seq(8, i requires 0 <= i < 8 => BeWord(s, i))
  }

  ghost function LeWords(s: seq<byte>): (w: seq<word>)
    requires |s| == 32
    ensures |w| == 8 && forall i :: 0 <= i < 8 ==> w[i] == LeWord(s, i)
  {
    seq(8, i requires 0 <= i < 8 => LeWord(s, i))
  }

  lemma BeWordsValue(s: seq<byte>)
    requires |s| == 32
    ensures BeValue(s) == Sum(BeWords(s), 8, TWO32)
  {
    BytesToWords(Reversed(s), BeWords(s), 8);
  }

  lemma LeWordsValue(s: seq<byte>)
    requires |s| == 32
    ensures LeValue(s) == Sum(LeWords(s), 8, TWO32)
  {
    BytesToWords(s, LeWords(s), 8);
  }

  /** out = the 256-bit integer in data[off..off + 32], most significant byte first. */
  method BnReadBe(data: array<byte>, off: nat, out: array<word>)
    requires off + 32 <= data.Length && out.Length == 9
    modifies out
    ensures Norm(out) && Val(out) == BeValue(data[off..off + 32]) < TWO256
  {
    hide Sum, Weight, Carried, Shl32, Shr, Or, Pow2;
    ghost var b := data[off..off + 32];
    ghost var w := BeWords(b);
    ghost var c := WordColumns(w);
    var temp: word := 0;
    CarryStart(out[..], c, 0, BASE);
    Pow2Zero();
    var i := 0;
    while i < 8
      invariant 0 <= i <= 8 && temp < Pow2(2 * i)
      invariant forall m :: 0 <= m < i ==> out[m] < BASE
      invariant Carried(out[..], c, i, temp, 0, BASE)
    {
      ghost var s, t := out[..], temp;
      var limb := ReadBe(data, off + (7 - i) * 4);
      assert limb == BeWord(b, i);
      ReadStep(temp, limb, i);
      temp := Or(temp, Shl32(limb, 2 * i));
      out[i] := temp % 0x4000_0000;
      temp := Shr(limb, 30 - 2 * i);
      CarryStep(s, out[..], c, i, t, temp, 0, BASE);
      i := i + 1;
    }
    ghost var s := out[..];
    out[8] := temp;
    CarrySame(s, out[..], c, 8, temp, 0, BASE);
    ReadValue(w, out[..], temp);
    BeWordsValue(b);
  }

  lemma Pow2Zero()
    ensures Pow2(0) == 1
  {
  }

  lemma ReadValue(w: seq<word>, out: seq<int>, temp: int)
    requires |w| == 8 && |out| == 9 && out[8] == temp < Pow2(16)
    requires Carried(out, WordColumns(w), 8, temp, 0, BASE)
    ensures Sum(out, 9, BASE) == Sum(w, 8, TWO32) < TWO256
    ensures temp < BASE
  {
    Pow2Values();
    WordColumnsValue(w, 8);
    assert Sum(out, 9, BASE) == Sum(out, 8, BASE) + temp * Weight(BASE, 8);
    SumBound(w, 8, TWO32);
    WeightRegroup(8);
    assert Weight(BASE, 8) * Pow2(16) == TWO256 by {
      Weights();
    }
  }

  /** out = the 256-bit integer in data[off..off + 32], least significant byte first. */
  method BnReadLe(data: array<byte>, off: nat, out: array<word>)
    requires off + 32 <= data.Length && out.Length == 9
    modifies out
    ensures Norm(out) && Val(out) == LeValue(data[off..off + 32]) < TWO256
  {
    hide Sum, Weight, Carried, Shl32, Shr, Or, Pow2;
    ghost var b := data[off..off + 32];
    ghost var w := LeWords(b);
    ghost var c := WordColumns(w);
    var temp: word := 0;
    CarryStart(out[..], c, 0, BASE);
    Pow2Zero();
    var i := 0;
    while i < 8
      invariant 0 <= i <= 8 && temp < Pow2(2 * i)
      invariant forall m :: 0 <= m < i ==> out[m] < BASE
      invariant Carried(out[..], c, i, temp, 0, BASE)
    {
      ghost var s, t := out[..], temp;
      var limb := ReadLe(data, off + i * 4);
      assert limb == LeWord(b, i);
      ReadStep(temp, limb, i);
      temp := Or(temp, Shl32(limb, 2 * i));
      out[i] := temp % 0x4000_0000;
      temp := Shr(limb, 30 - 2 * i);
      CarryStep(s, out[..], c, i, t, temp, 0, BASE);
      i := i + 1;
    }
    ghost var s := out[..];
    out[8] := temp;
    CarrySame(s, out[..], c, 8, temp, 0, BASE);
    ReadValue(w, out[..], temp);
    LeWordsValue(b);
  }

  // ----- writing

  /** Word m of a number given by its limbs. */
  ghost function LimbWord(val: seq<int>, m: nat): int
    requires |val| == 9 && Normal(val, BASE) && m < 8
  {
    Or(Shl32(val[m + 1], 30 - 2 * m), Shr(val[m], 2 * m))
  }

  /** The bits of limb m + 1 that do not belong to word m are those that word m + 1 takes. */
  lemma WriteStep(x: nat, above: nat, m: nat)
    requires m < 8 && x < BASE && above < BASE
    ensures Or(Shl32(above, 30 - 2 * m), Shr(x, 2 * m)) < TWO32
    ensures above % Pow2(2 * m + 2) * BASE + x
         == x % Pow2(2 * m) + Or(Shl32(above, 30 - 2 * m), Shr(x, 2 * m)) * Pow2(2 * m)
  {
    Pow2Values();
    hide Pow2, Or;
    var s, e, f := Pow2(2 * m), Pow2(30 - 2 * m), Pow2(2 * m + 2);
    Pow2Add(2 * m, 30 - 2 * m);
    Pow2Add(30 - 2 * m, 2 * m + 2);
    Pow2Mono(30 - 2 * m, 32);
    assert e * f == TWO32;
    QuotientBelow(x, s, e);
    WrapMultiple(above, e, f);
    OrDisjoint(Shr(x, 2 * m), Shl32(above, 30 - 2 * m), 30 - 2 * m);
    OrBound(Shr(x, 2 * m), Shl32(above, 30 - 2 * m), 32);
    WrapShift(above, e, f);
    DivMod(x, s);
    Distribute(x / s, above % f, e, s);
    assert above % f * (e * s) == above % f * BASE;
  }

  lemma WrapShift(x: nat, e: nat, f: nat)
    requires e > 0 && f > 0 && e * f == TWO32
    ensures (x * e) % TWO32 == x % f * e
  {
    DivMod(x, f);
    Distribute(x % f, x / f, f, e);
    Product(e, 0, x % f);
    Product(e, x % f, f - 1);
    assert (f - 1) * e == TWO32 - e;
    assert x / f * (f * e) == x / f * TWO32;
    DivModUnique(x * e, TWO32, x / f, x % f * e);
  }

  ghost function LimbWords(val: seq<int>): (w: seq<int>)
    requires |val| == 9 && Normal(val, BASE)
    ensures |w| == 8 && forall m :: 0 <= m < 8 ==> w[m] == LimbWord(val, m)
  {
    seq(8, m requires 0 <= m < 8 => LimbWord(val, m))
  }

  /** The eight words hold the whole number when it is below 2^256. */
  lemma LimbWordsValue(val: seq<int>)
    requires |val| == 9 && Normal(val, BASE) && Sum(val, 9, BASE) < TWO256
    ensures Sum(LimbWords(val), 8, TWO32) == Sum(val, 9, BASE)
  {
    var w := LimbWords(val);
    var c := WordColumns(w);
    TopLimb(val);
    assert Sum(val, 9, BASE) == Sum(val, 8, BASE) + val[8] * Weight(BASE, 8);
    hide Sum, Weight, Or, Shl32, Shr, LimbWords;
    var carries := seq(9, m requires 0 <= m < 9 => val[m] % Pow2(2 * m));
    Pow2Values();
    Pow2Zero();
    hide Pow2;
    SmallResidue(val[8], Pow2(16));
    assert carries[8] == val[8] && carries[0] == 0;
    forall m | 0 <= m < 8
      ensures carries[m + 1] * BASE + val[m] == carries[m] + c[m]
    {
      WriteStep(val[m], val[m + 1], m);
      assert 2 * (m + 1) == 2 * m + 2;
    }
    CarriedBy(val, c, carries, 8, BASE);
    WordColumnsValue(w, 8);
  }

  lemma BytesOfWord(x: word)
    ensures JoinBytes(ByteOf(x, 3), ByteOf(x, 2), ByteOf(x, 1), ByteOf(x, 0)) == x
  {
    hide JoinBytes;
    assert x / 0x100 / 0x100 == x / 0x1_0000 && x / 0x1_0000 / 0x100 == x / 0x100_0000;
    assert x == x / 0x100 * 0x100 + ByteOf(x, 0);
    assert x / 0x100 == x / 0x1_0000 * 0x100 + ByteOf(x, 1);
    assert x / 0x1_0000 == x / 0x100_0000 * 0x100 + ByteOf(x, 2);
  }

  /** data[off..off + 4] = x, most significant byte first. */
  method WriteBe(data: array<byte>, off: nat, x: word)
    requires off + 4 <= data.Length
    modifies data
    ensures JoinBytes(data[off], data[off + 1], data[off + 2], data[off + 3]) == x
    ensures forall i :: 0 <= i < data.Length && !(off <= i < off + 4) ==> data[i] == old(data[i])
  {
    BytesOfWord(x);
    hide JoinBytes, ByteOf;
    data[off], data[off + 1], data[off + 2], data[off + 3] := ByteOf(x, 3), ByteOf(x, 2), ByteOf(x, 1), ByteOf(x, 0);
  }

  method WriteLe(data: array<byte>, off: nat, x: word)
    requires off + 4 <= data.Length
    modifies data
    ensures JoinBytes(data[off + 3], data[off + 2], data[off + 1], data[off]) == x
    ensures forall i :: 0 <= i < data.Length && !(off <= i < off + 4) ==> data[i] == old(data[i])
  {
    BytesOfWord(x);
    hide JoinBytes, ByteOf;
    data[off + 3], data[off + 2], data[off + 1], data[off] := ByteOf(x, 3), ByteOf(x, 2), ByteOf(x, 1), ByteOf(x, 0);
  }

  /** data[off..off + 32] = x, most significant byte first; x must be fully reduced. */
  method BnWriteBe(x: array<word>, data: array<byte>, off: nat)
    requires Norm(x) && Val(x) < TWO256 && off + 32 <= data.Length
    modifies data
    ensures BeValue(data[off..off + 32]) == Val(x)
    ensures forall i :: 0 <= i < data.Length && !(off <= i < off + 32) ==> data[i] == old(data[i])
  {
    hide Sum, Weight, Shl32, Shr, Or, Pow2, JoinBytes;
    ghost var val := x[..];
    var temp: word := x[8];
    var i := 0;
    while i < 8
      invariant 0 <= i <= 8 && temp == x[8 - i] && x[..] == val
      invariant forall m :: 0 <= m < i ==>
        JoinBytes(data[off + 4 * m], data[off + 4 * m + 1], data[off + 4 * m + 2], data[off + 4 * m + 3])
            == LimbWord(val, 7 - m)
      invariant forall m :: 0 <= m < data.Length && !(off <= m < off + 4 * i) ==> data[m] == old(data[m])
    {
      var limb := x[7 - i];
      WriteStep(limb, temp, 7 - i);
      temp := Or(Shl32(temp, 16 + 2 * i), Shr(limb, 14 - 2 * i));
      WriteBe(data, off + i * 4, temp);
      temp := limb;
      i := i + 1;
    }
    WrittenBe(data[off..off + 32], val);
  }

  lemma WrittenBe(b: seq<byte>, val: seq<int>)
    requires |b| == 32 && |val| == 9 && Normal(val, BASE) && Sum(val, 9, BASE) < TWO256
    requires forall m :: 0 <= m < 8 ==>
        JoinBytes(b[4 * m], b[4 * m + 1], b[4 * m + 2], b[4 * m + 3])
        == LimbWord(val, 7 - m)
    ensures BeValue(b) == Sum(val, 9, BASE)
  {
    hide Or, Sum, Weight;
    BeWordsValue(b);
    LimbWordsValue(val);
    forall i | 0 <= i < 8
      ensures BeWords(b)[i] == LimbWords(val)[i]
    {
      assert BeWord(b, i) == LimbWord(val, 7 - (7 - i));
    }
    SumSame(BeWords(b), LimbWords(val), 8, TWO32);
  }

  /** data[off..off + 32] = x, least significant byte first; x must be fully reduced. */
  method BnWriteLe(x: array<word>, data: array<byte>, off: nat)
    requires Norm(x) && Val(x) < TWO256 && off + 32 <= data.Length
    modifies data
    ensures LeValue(data[off..off + 32]) == Val(x)
    ensures forall i :: 0 <= i < data.Length && !(off <= i < off + 32) ==> data[i] == old(data[i])
  {
    hide Sum, Weight, Shl32, Shr, Or, Pow2, JoinBytes;
    ghost var val := x[..];
    var temp: word := x[8];
    var i := 0;
    while i < 8
      invariant 0 <= i <= 8 && temp == x[8 - i] && x[..] == val
      invariant forall m :: 8 - i <= m < 8 ==>
        JoinBytes(data[off + 4 * m + 3], data[off + 4 * m + 2], data[off + 4 * m + 1], data[off + 4 * m])
            == LimbWord(val, m)
      invariant forall m :: 0 <= m < data.Length && !(off + 4 * (8 - i) <= m < off + 32) ==> data[m] == old(data[m])
    {
      var limb := x[7 - i];
      WriteStep(limb, temp, 7 - i);
      temp := Or(Shl32(temp, 16 + 2 * i), Shr(limb, 14 - 2 * i));
      WriteLe(data, off + (7 - i) * 4, temp);
      temp := limb;
      i := i + 1;
    }
    WrittenLe(data[off..off + 32], val);
  }

  lemma WrittenLe(b: seq<byte>, val: seq<int>)
    requires |b| == 32 && |val| == 9 && Normal(val, BASE) && Sum(val, 9, BASE) < TWO256
    requires forall m :: 0 <= m < 8 ==>
        JoinBytes(b[4 * m + 3], b[4 * m + 2], b[4 * m + 1], b[4 * m])
        == LimbWord(val, m)
    ensures LeValue(b) == Sum(val, 9, BASE)
  {
    hide Or, Sum, Weight;
    LeWordsValue(b);
    LimbWordsValue(val);
    SumSame(LeWords(b), LimbWords(val), 8, TWO32);
  }

  // ----- round trips

  /** Bytes are determined by the integer they stand for: whatever bn_write_be writes from a number that
      bn_read_be has read are the bytes that were read. */
  lemma BeBytesUnique(b: seq<byte>, c: seq<byte>)
    requires |b| == |c| && BeValue(b) == BeValue(c)
    ensures b == c
  {
    LeBytesUnique(Reversed(b), Reversed(c));
    assert forall i :: 0 <= i < |b| ==> b[i] == Reversed(b)[|b| - 1 - i];
    assert forall i :: 0 <= i < |c| ==> c[i] == Reversed(c)[|c| - 1 - i];
  }

  lemma LeBytesUnique(b: seq<byte>, c: seq<byte>)
    requires |b| == |c| && LeValue(b) == LeValue(c)
    ensures b == c
  {
    SumInjective(b, c, |b|, 0x100);
    assert b == b[..|b|] && c == c[..|c|];
  }

  /** Any bytes with the value of the limbs that were read from b are b: bn_write_be undoes bn_read_be. */
  lemma BeReadThenWrite(b: seq<byte>, y: seq<int>, c: seq<byte>)
    requires |b| == |c| == 32 && |y| == 9 && Normal(y, BASE)
    requires Sum(y, 9, BASE) == BeValue(b) && BeValue(c) == Sum(y, 9, BASE)
    ensures c == b
  {
    BeBytesUnique(b, c);
  }

  /** Any normalised limbs with the value of the bytes that were written from x are x: bn_read_be undoes
      bn_write_be. */
  lemma BeWriteThenRead(x: seq<int>, c: seq<byte>, y: seq<int>)
    requires |x| == |y| == 9 && Normal(x, BASE) && Normal(y, BASE) && |c| == 32
    requires BeValue(c) == Sum(x, 9, BASE) && Sum(y, 9, BASE) == BeValue(c)
    ensures y == x
  {
    SumInjective(x, y, 9, BASE);
    assert x == x[..9] && y == y[..9];
  }

  lemma LeReadThenWrite(b: seq<byte>, y: seq<int>, c: seq<byte>)
    requires |b| == |c| == 32 && |y| == 9 && Normal(y, BASE)
    requires Sum(y, 9, BASE) == LeValue(b) && LeValue(c) == Sum(y, 9, BASE)
    ensures c == b
  {
    LeBytesUnique(b, c);
  }

  lemma LeWriteThenRead(x: seq<int>, c: seq<byte>, y: seq<int>)
    requires |x| == |y| == 9 && Normal(x, BASE) && Normal(y, BASE) && |c| == 32
    requires LeValue(c) == Sum(x, 9, BASE) && Sum(y, 9, BASE) == LeValue(c)
    ensures y == x
  {
    SumInjective(x, y, 9, BASE);
    assert x == x[..9] && y == y[..9];
  }

  /** bn_write_be after bn_read_be: the bytes come back, wherever they are written. */
  method BeCopyBytes(b: array<byte>, c: array<byte>)
    requires b.Length == c.Length == 32
    modifies c
    ensures c[..] == old(b[..])
  {
    hide Sum, Weight, BeValue;
    ghost var b0 := b[0..32];
    var y := new word[9];
    BnReadBe(b, 0, y);
    BnWriteBe(y, c, 0);
    BeReadThenWrite(b0, y[..], c[0..32]);
    assert b0 == old(b[..]) && c[0..32] == c[..];
  }

  /** bn_read_be after bn_write_be: the limbs come back. */
  method BeCopyLimbs(x: array<word>, y: array<word>)
    requires Norm(x) && Val(x) < TWO256 && y.Length == 9
    modifies y
    ensures y[..] == old(x[..])
  {
    hide Sum, Weight, BeValue;
    ghost var x0 := x[..];
    var c := new byte[32];
    BnWriteBe(x, c, 0);
    BnReadBe(c, 0, y);
    BeWriteThenRead(x0, c[0..32], y[..]);
  }
}
