/** Reading the signed digits of a scalar out of its limbs (point_multiply and scalar_multiply in ecdsa.c). */
module Recoding {
  import opened Words
  import opened Digits
  import opened BignumBasics
  import opened BignumReduce
  import opened SignedDigits

  // ----- adding 2^256 and making the scalar odd

  ghost function Masked(n: seq<int>, even: bool): (m: seq<int>)
    ensures |m| == |n| && forall i :: 0 <= i < |m| ==> m[i] == if even then n[i] else 0
  {
    seq(|n|, i requires 0 <= i < |n| => if even then n[i] else 0)
  }

  lemma RecodeValue(k: seq<int>, n: seq<int>, a: seq<int>, c: seq<int>, even: bool, tmp: int)
    requires |k| == |n| == |a| == |c| == 9
    requires forall i :: 0 <= i < 8 ==> c[i] == BASE - 1 + k[i] - Masked(n, even)[i]
    requires Carried(a, c, 8, tmp, 1, BASE) && a[8] == tmp + 0xFFFF + k[8] - Masked(n, even)[8]
    ensures Sum(a, 9, BASE) == Sum(k, 9, BASE) + TWO256 - if even then Sum(n, 9, BASE) else 0
  {
    var m := Masked(n, even);
    Weights();
    TopTerm(a);
    TopTerm(k);
    TopTerm(m);
    hide Sum, Weight, Masked;
    SumRaised(c, k, k, 0, m, 8, BASE);
    SumLinear(m, n, n, if even then 1 else 0, 0, 9, BASE);
  }

  /** All limbs but the last. */
  method RecodeLimbs(k: array<word>, order: array<word>, a: array<word>, isEven: word, ghost c: seq<int>)
      returns (tmp: word, isNonZero: word)
    requires Norm(k) && Norm(order) && a.Length == 9 && a !in {k, order} && (isEven == 0 || isEven == 0xFFFF_FFFF)
    requires |c| == 9 && forall i :: 0 <= i < 9 ==> c[i] == BASE - 1 + k[i] - if isEven != 0 then order[i] else 0
    modifies a
    ensures tmp <= 1 && (isNonZero == 0 <==> forall i :: 0 <= i < 8 ==> k[i] == 0)
    ensures Carried(a[..], c, 8, tmp, 1, BASE) && forall i :: 0 <= i < 8 ==> a[i] < BASE
  {
    hide Or, And, Carried;
    tmp := 1;
    isNonZero := 0;
    CarryStart(a[..], c, 1, BASE);
    var j := 0;
    while j < 8
      invariant 0 <= j <= 8 && tmp <= 1
      invariant isNonZero == 0 <==> forall i :: 0 <= i < j ==> k[i] == 0
      invariant forall i :: 0 <= i < j ==> a[i] < BASE
      invariant Carried(a[..], c, j, tmp, 1, BASE)
    {
      ghost var s, t := a[..], tmp;
      OrWord(isNonZero, k[j]);
      isNonZero := Or(isNonZero, k[j]);
      MaskWord(order[j], isEven);
      tmp := tmp + (0x3FFF_FFFF + k[j] - And(order[j], isEven));
      a[j] := tmp % 0x4000_0000;
      tmp := tmp / 0x4000_0000;
      CarryStep(s, a[..], c, j, t, tmp, 1, BASE);
      j := j + 1;
    }
  }

  /** a = k + 2^256, less the order when k is even. */
  method Recode(k: array<word>, order: array<word>, a: array<word>) returns (nonZero: bool)
    requires Norm(k) && IsModulus(order) && Val(k) < Val(order) && a.Length == 9 && a !in {k, order}
    modifies a
    ensures Norm(a) && Val(a) == Recoded(Val(k), Val(order)) && a[8] < 0x2_0000
    ensures nonZero <==> Val(k) != 0
  {
    hide Sum, Weight, Or, And, Masked, Carried;
    ghost var k0, n := k[..], order[..];
    TopLimb(k0);
    TopLimb(n);
    var isEven: word := if k[0] % 2 == 1 then 0 else 0xFFFF_FFFF;
    ghost var m := Masked(n, isEven != 0);
    ghost var c: seq<int> := seq(9, i requires 0 <= i < 9 => BASE - 1 + k0[i] as int - m[i]);
    var tmp, isNonZero := RecodeLimbs(k, order, a, isEven, c);
    OrWord(isNonZero, k[8]);
    isNonZero := Or(isNonZero, k[8]);
    MaskWord(order[8], isEven);
    ghost var s := a[..];
    a[8] := tmp + 0xFFFF + k[8] - And(order[8], isEven);
    CarrySame(s, a[..], c, 8, tmp, 1, BASE);
    RecodeEnd(k0, n, a[..], c, tmp);
    SumZero(k0, 9, BASE);
    nonZero := isNonZero != 0;
  }

  lemma RecodeEnd(k: seq<int>, n: seq<int>, a: seq<int>, c: seq<int>, tmp: int)
    requires |k| == |n| == |a| == |c| == 9 && Normal(k, BASE) && Normal(n, BASE)
    requires Modulus(Sum(n, 9, BASE)) && 0 <= Sum(k, 9, BASE) < Sum(n, 9, BASE)
    requires forall i :: 0 <= i < 8 ==> 0 <= a[i] < BASE && c[i] == BASE - 1 + k[i] - Masked(n, k[0] % 2 == 0)[i]
    requires Carried(a, c, 8, tmp, 1, BASE) && a[8] == tmp + 0xFFFF + k[8] - Masked(n, k[0] % 2 == 0)[8]
    requires 0 <= a[8] < BASE
    ensures Sum(a, 9, BASE) == Recoded(Sum(k, 9, BASE), Sum(n, 9, BASE)) && a[8] < 0x2_0000
  {
    hide Sum, Masked, Carried;
    RecodeValue(k, n, a, c, k[0] % 2 == 0, tmp);
    SumParity(k, 9, BASE);
    TopLimb(k);
    TopLimb(a);
  }

  lemma OrWord(x: word, y: word)
    ensures Or(x, y) < TWO32 && (Or(x, y) == 0 <==> x == 0 && y == 0)
  {
    Pow2Values();
    OrBound(x, y, 32);
    OrZero(x, y);
  }

  // ----- windows across limbs

  /** The number in limb m and above. */
  ghost function From(s: seq<int>, m: nat): int
    requires |s| == 9 && m <= 9
  {
    Sum(s[m..], 9 - m, BASE)
  }

  lemma FromStep(s: seq<int>, m: nat)
    requires |s| == 9 && m < 9 && Normal(s, BASE)
    ensures From(s, m) == s[m] + BASE * From(s, m + 1) && 0 <= From(s, m + 1) && From(s, 9) == 0
  {
    SumSplit(s[m..], 1, 9 - m, BASE);
    assert s[m..][1..] == s[m + 1..];
    assert Sum(s[m..], 1, BASE) == Sum(s[m..], 0, BASE) + s[m..][0] * Weight(BASE, 0);
    assert Weight(BASE, 0) == 1 && Weight(BASE, 1) == BASE * Weight(BASE, 0);
    SumNonNegative(s[m + 1..], 9 - (m + 1), BASE);
  }

  lemma {:induction false} PowersAgree(i: nat)
    ensures Weight(16, i) == Pow2(4 * i)
  {
    if i > 0 {
      PowersAgree(i - 1);
      assert Pow2(4 * i) == 2 * Pow2(4 * i - 1) && Pow2(4 * i - 1) == 2 * Pow2(4 * i - 2);
      assert Pow2(4 * i - 2) == 2 * Pow2(4 * i - 3) && Pow2(4 * i - 3) == 2 * Pow2(4 * (i - 1));
    }
  }

  lemma {:induction false} LimbPowers(m: nat)
    ensures Weight(BASE, m) == Pow2(30 * m)
  {
    if m > 0 {
      LimbPowers(m - 1);
      Pow2Values();
      Pow2Add(30, 30 * (m - 1));
    }
  }

  /** Position 4 i is bit sh of limb m. */
  lemma TopInLimb(s: seq<int>, m: nat, sh: nat, i: nat)
    requires |s| == 9 && Normal(s, BASE) && m <= 8 && 30 * m + sh == 4 * i
    ensures 0 <= From(s, m) && 0 <= Sum(s, 9, BASE) && Top(Sum(s, 9, BASE), i) == From(s, m) / Pow2(sh)
  {
    SumSplit(s, m, 9, BASE);
    SumBound(s, m, BASE);
    SumNonNegative(s[m..], 9 - m, BASE);
    SumNonNegative(s, 9, BASE);
    var v, h, w := Sum(s, 9, BASE), From(s, m), Weight(BASE, m);
    hide Sum, Weight, From;
    DivModUnique(v, w, h, Sum(s, m, BASE));
    DivDiv(v, w, Pow2(sh));
    PowersAgree(i);
    LimbPowers(m);
    Pow2Add(30 * m, sh);
  }

  lemma AddMultiple(x: nat, d: nat, q: int)
    requires d > 0
    ensures (x + d * q) / d == x / d + q
  {
    DivMod(x, d);
    assert (x / d + q) * d == x / d * d + d * q;
    DivModUnique(x + d * q, d, x / d + q, x % d);
  }

  lemma Mod32(x: int, q: int)
    ensures (x + 32 * q) % 32 == x % 32
  {
  }

  /** The five bits lie within one limb. */
  lemma WindowInside(x: nat, h: nat, sh: nat)
    requires sh <= 25
    ensures (x + BASE * h) / Pow2(sh) % 32 == x / Pow2(sh) % 32
  {
    hide Pow2;
    PowerFactors(sh, 25);
    ScaledAway(x, 32 * h, Pow2(sh), Pow2(25 - sh), 0x200_0000);
    MultipleOf32(x / Pow2(sh), Pow2(25 - sh), h);
  }

  lemma PowerFactors(m: nat, n: nat)
    requires m <= n <= 32
    ensures Pow2(m) * Pow2(n - m) == Pow2(n)
    ensures Pow2(25) == 0x200_0000 && Pow2(30) == BASE && Pow2(32) == TWO32
  {
    Pow2Values();
    Pow2Add(m, n - m);
  }

  lemma MultipleOf32(x: int, e: int, h: int)
    ensures (x + e * (32 * h)) % 32 == x % 32
  {
    assert e * (32 * h) == 32 * (e * h);
    Mod32(x, e * h);
  }

  lemma ScaledAway(x: nat, v: nat, d: nat, e: nat, b: nat)
    requires d > 0 && d * e == b
    ensures (x + b * v) / d == x / d + e * v
  {
    assert (d * e) * v == d * (e * v);
    AddMultiple(x, d, e * v);
  }

  /** Some of the five bits come from the next limb. */
  lemma WindowAcross(x: nat, y: word, h: nat, sh: nat)
    requires x < BASE && 26 <= sh < 30
    ensures Or(Shl32(y, 30 - sh), Shr(x, sh)) < TWO32
    ensures (x + BASE * (y + BASE * h)) / Pow2(sh) % 32 == Or(Shl32(y, 30 - sh), Shr(x, sh)) % 32
  {
    hide Pow2, Or, Shl32, Shr;
    var d, e, f := Pow2(sh), Pow2(30 - sh), Pow2(2 + sh);
    PowerFactors(sh, 30);
    PowerFactors(30 - sh, 32);
    ShiftsAre(x, y, sh);
    ScaledAway(x, y + BASE * h, d, e, BASE);
    QuotientSmall(x, d, e);
    ShiftedOut(y, e, f);
    OrDisjoint(x / d, y % f * e, 30 - sh);
    SumBelow(x / d, y % f, e, f);
    DropHigh(x / d, y, h, e, f);
  }

  lemma ShiftsAre(x: word, y: word, sh: nat)
    requires sh < 30
    ensures Shl32(y, 30 - sh) == (y * Pow2(30 - sh)) % TWO32 && Shr(x, sh) == x / Pow2(sh)
  {
  }

  lemma QuotientSmall(x: nat, d: nat, e: nat)
    requires d > 0 && x < d * e
    ensures 0 <= x / d < e
  {
    DivMod(x, d);
    QuotientBound(x, d);
    if x / d >= e {
      Product(d, e, x / d);
      assert false;
    }
  }

  /** What is left of y after a shift by e on 32 bits. */
  lemma ShiftedOut(y: nat, e: nat, f: nat)
    requires e > 0 && f > 0 && e * f == TWO32
    ensures (y * e) % TWO32 == y % f * e && (y % f * e) % e == 0
  {
    DivMod(y, f);
    var q, r := y / f, y % f;
    assert y * e == q * (e * f) + r * e by {
      assert (q * f + r) * e == q * (e * f) + r * e;
    }
    Product(e, 0, r);
    Product(e, r, f - 1);
    assert e * (f - 1) == e * f - e;
    DivModUnique(y * e, TWO32, q, r * e);
    DivModUnique(r * e, e, r, 0);
  }

  lemma SumBelow(z: nat, r: nat, e: nat, f: nat)
    requires z < e && r < f && e * f == TWO32
    ensures 0 <= z + r * e < TWO32
  {
    Product(e, 0, r);
    Product(e, r, f - 1);
    assert e * (f - 1) == e * f - e;
  }

  lemma DropHigh(z: nat, y: nat, h: nat, e: nat, f: nat)
    requires e > 0 && f > 0 && e * f == TWO32
    ensures (z + e * (y + BASE * h)) % 32 == (z + y % f * e) % 32
  {
    DivMod(y, f);
    var q, r := y / f, y % f;
    assert e * y == q * TWO32 + r * e by {
      assert e * (q * f + r) == q * (e * f) + r * e;
    }
    assert e * (BASE * h) == 32 * (0x200_0000 * (e * h));
    assert e * (y + BASE * h) == e * y + e * (BASE * h);
    Mod32(z + r * e, 0x800_0000 * q + 0x200_0000 * (e * h));
  }

  /** One step of the left-to-right scan: the five bits at position 4 i.  abits is the limb the scan is in,
      and 30 index + ashift the position it has reached. */
  method NextWindow(a: array<word>, index: nat, abits: word, ashift: int, ghost i: nat)
      returns (index': nat, abits': word, ashift': int, bits: word)
    requires Norm(a) && index <= 8 && abits == a[index] && 0 <= ashift < 30 && 30 * index + ashift == 4 * (i + 1)
    ensures index' <= 8 && abits' == a[index'] && 0 <= ashift' < 30 && 30 * index' + ashift' == 4 * i
    ensures bits == Top(Val(a), i) % 32
  {
    ghost var s: seq<int> := a[..];
    index', abits', ashift' := index, abits, ashift - 4;
    if ashift' < 0 {
      bits := Shl32(abits, -ashift');
      index' := index - 1;
      abits' := a[index'];
      ashift' := ashift' + 30;
      TopInLimb(s, index', ashift', i);
      FromStep(s, index');
      FromStep(s, index);
      hide Sum, Weight, From, Top, Or, Shl32, Shr;
      WindowAcross(abits', abits, From(s, index + 1), ashift');
      bits := Or(bits, Shr(abits', ashift'));
    } else {
      TopInLimb(s, index', ashift', i);
      FromStep(s, index');
      hide Sum, Weight, From, Top;
      WindowInside(abits', From(s, index + 1), ashift');
      bits := Shr(abits, ashift');
    }
    bits := bits % 32;
  }

  /** The first window starts at bit 12 of the top limb. */
  method FirstWindow(a: array<word>) returns (bits: word)
    requires Norm(a) && a[8] < 0x2_0000
    ensures bits == Top(Val(a), 63) % 32
  {
    ghost var s: seq<int> := a[..];
    TopInLimb(s, 8, 12, 63);
    FromStep(s, 8);
    assert Pow2(12) == 0x1000;
    hide Sum, Weight, From, Top;
    bits := Shr(a[8], 12);
  }

  // ----- four bits at a time from the low end

  ghost function Shifted4(x: int, above: int): (r: int)
    ensures 0 <= x < BASE ==> 0 <= r < BASE
  {
    x / 16 + above % 16 * 0x400_0000
  }

  lemma ShiftInNibble(x: nat, y: nat)
    requires x < BASE
    ensures Or(x / 16, y % 16 * 0x400_0000) == Shifted4(x, y)
  {
    assert Pow2(13) == 0x2000;
    Pow2Add(13, 13);
    OrDisjoint(x / 16, y % 16 * 0x400_0000, 26);
  }

  lemma ShiftFourValue(a: seq<int>, r: seq<int>)
    requires |a| == |r| == 9 && Normal(a, BASE) && Normal(r, BASE)
    requires r[8] == a[8] / 16 && forall m :: 0 <= m < 8 ==> r[m] == Shifted4(a[m], a[m + 1])
    ensures Sum(r, 9, BASE) == Sum(a, 9, BASE) / 16
  {
    hide Sum, Weight;
    var c := seq(9, i requires 0 <= i < 9 => 16 * r[i]);
    var carries := seq(9, i requires 0 <= i < 9 => a[i] % 16) + [0];
    forall i | 0 <= i < 9
      ensures carries[i + 1] * BASE + a[i] == carries[i] + c[i]
    {
      assert carries[i] == a[i] % 16;
    }
    CarriedBy(a, c, carries, 9, BASE);
    SumLinear(c, r, r, 16, 0, 9, BASE);
  }

  /** a = a >> 4. */
  method ShiftFour(a: array<word>)
    requires Norm(a)
    modifies a
    ensures Norm(a) && Val(a) == old(Val(a)) / 16
  {
    hide Sum, Weight, Or;
    ghost var a0 := a[..];
    var j := 0;
    while j < 8
      invariant 0 <= j <= 8 && Norm(a)
      invariant forall m :: j <= m < 9 ==> a[m] == a0[m]
      invariant forall m :: 0 <= m < j ==> a[m] == Shifted4(a0[m], a0[m + 1])
    {
      ShiftInNibble(a[j], a[j + 1]);
      a[j] := Or(a[j] / 16, a[j + 1] % 16 * 0x400_0000);
      j := j + 1;
    }
    a[8] := a[8] / 16;
    ShiftFourValue(a0, a[..]);
  }

  // ----- from a window to a digit

  /** The C code keeps signs as masks. */
  ghost function SignOf(mask: word): int
  {
    if mask == 0 then 1 else -1
  }

  ghost predicate Mask(m: word)
  {
    m == 0 || m == 0xFFFF_FFFF
  }

  /** bits / 2 is the table index of the size of the digit, and sign its sign. */
  method SignedWindow(w: word) returns (sign: word, bits: word)
    requires w < 32
    ensures Mask(sign) && bits < 16 && SignOf(sign) * (2 * (bits / 2) + 1) == Oddly(w) - 16
    ensures sign == 0 <==> w >= 16
    ensures bits % 2 == if sign == 0 then w % 2 else 1 - w % 2
  {
    sign := Wrap32(w / 16 - 1);
    SelectBits(w, sign);
    hide Xor, And, Wrap32, Oddly, SignOf;
    bits := And(Xor(w, sign), 15);
    DigitSize(w, bits, sign);
  }

  lemma DigitSize(w: nat, bits: nat, sign: word)
    requires w < 32 && Mask(sign) && (sign == 0 <==> w >= 16) && bits == if w >= 16 then w - 16 else 15 - w
    ensures SignOf(sign) * (2 * (bits / 2) + 1) == Oddly(w) - 16
    ensures bits % 2 == if sign == 0 then w % 2 else 1 - w % 2
  {
  }

  lemma SelectBits(w: nat, sign: word)
    requires w < 32 && Mask(sign) && (sign == 0 <==> w >= 16)
    ensures And(Xor(w, sign), 15) == if w >= 16 then w - 16 else 15 - w
  {
    hide Xor, And;
    if sign == 0 {
      KeepNibble(w);
    } else {
      FlipNibble(w);
    }
  }

  lemma KeepNibble(w: nat)
    requires 16 <= w < 32
    ensures And(Xor(w, 0), 15) == w - 16
  {
    assert Xor(w, 0) == w;
    hide Xor, And;
    MaskNibble(w, w - 16, 1);
  }

  lemma FlipNibble(w: nat)
    requires w < 16
    ensures And(Xor(w, 0xFFFF_FFFF), 15) == 15 - w
  {
    Pow2Values();
    hide Xor, And, Pow2;
    XorOnes(w, 32);
    MaskNibble(0xFFFF_FFFF - w, 15 - w, 0xFFF_FFFF);
  }

  lemma MaskNibble(x: nat, r: nat, q: nat)
    requires x == 16 * q + r && r < 16
    ensures And(x, 15) == r
  {
    assert Pow2(4) == 16;
    hide And, Pow2;
    AndMask(x, 4);
    DivModUnique(x, 16, q, r);
  }

  lemma WindowDigit(a: nat, i: nat, w: nat)
    requires w == Top(a, i) % 32
    ensures Digit(a, i) == Oddly(w) - 16
  {
    var t := Top(a, i);
    assert Digit(a, i) == Oddly(t) % 32 - 16;
    hide Top, Digit, Oddly;
    DivMod(t, 32);
    OddlySplit(t, t / 32, w);
  }

  /** The lowest bit of a window is the sign of the digit before. */
  lemma PreviousSign(a: nat, i: nat)
    ensures Top(a, i + 1) % 2 == 1 <==> Top(a, i) % 32 >= 16
    ensures Top(a, i + 1) % 2 == 1 <==> Digit(a, i) > 0
  {
    TopStep(a, i);
    assert Digit(a, i) == Oddly(Top(a, i)) % 32 - 16;
    hide Top, Digit;
    BitFour(Top(a, i));
  }

  lemma BitFour(t: nat)
    ensures t / 16 % 2 == 1 <==> t % 32 >= 16
    ensures Oddly(t) % 32 > 16 <==> t % 32 >= 16
  {
    var q, r := t / 32, t % 32;
    DivMod(t, 32);
    var b := if r >= 16 then 1 else 0;
    DivModUnique(t, 16, 2 * q + b, r - 16 * b);
    DivModUnique(2 * q + b, 2, q, b);
    DivModUnique(Oddly(t), 32, q, Oddly(r));
  }
}
