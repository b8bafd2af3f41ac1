/** Lazy reduction modulo a 256-bit prime (bignum.c): results are normalized but only partly reduced. */
module BignumReduce {
  import opened Words
  import opened Digits
  import opened Congruence
  import opened BignumBasics

  /** 2^61 in the first column and 2^61 - 2^31 in the others, so that no column goes negative. */
  ghost function Bias(n: nat): (s: seq<int>)
    ensures |s| == n
  {
    seq(n, i => if i == 0 then 0x2000_0000_0000_0000 else 0x1FFF_FFFF_8000_0000)
  }

  /** The bias is a multiple of the weight after the last column: it disappears from the digits. */
  lemma {:induction false} SumBias(m: nat, n: nat)
    requires 0 < n <= m
    ensures Sum(Bias(m), n, BASE) == 0x8000_0000 * Weight(BASE, n)
  {
    var w := Weight(BASE, n - 1);
    if n == 1 {
      assert Sum(Bias(m), 1, BASE) == Sum(Bias(m), 0, BASE) + Bias(m)[0] * Weight(BASE, 0);
    } else {
      SumBias(m, n - 1);
      assert Bias(m)[n - 1] == 0x1FFF_FFFF_8000_0000;
    }
  }

  /** Column i of x - coef * p with the bias added. */
  ghost function Column(x: seq<int>, p: seq<int>, coef: int, i: nat): int
    requires i < |x| && i < |p|
  {
    (if i == 0 then 0x2000_0000_0000_0000 else 0x1FFF_FFFF_8000_0000) + x[i] - p[i] * coef
  }

  ghost function Columns(x: seq<int>, p: seq<int>, coef: int): (c: seq<int>)
    requires |x| == |p|
    ensures |c| == |x| && forall i :: 0 <= i < |c| ==> c[i] == Column(x, p, coef, i)
  {
    seq(|x|, i requires 0 <= i < |x| => Column(x, p, coef, i))
  }

  lemma SumColumns(x: seq<int>, p: seq<int>, coef: int, n: nat)
    requires 0 < n <= |x| == |p|
    ensures Sum(Columns(x, p, coef), n, BASE)
         == Sum(x, n, BASE) - coef * Sum(p, n, BASE) + 0x8000_0000 * Weight(BASE, n)
  {
    var d := seq(|x|, i requires 0 <= i < |x| => x[i] - p[i] * coef);
    SumLinear(Columns(x, p, coef), Bias(|x|), d, 1, 1, n, BASE);
    SumDifference(d, x, p, coef, n);
    SumBias(|x|, n);
  }

  lemma SumDifference(d: seq<int>, x: seq<int>, p: seq<int>, coef: int, n: nat)
    requires n <= |d| == |x| == |p| && forall i :: 0 <= i < n ==> d[i] == x[i] - p[i] * coef
    ensures Sum(d, n, BASE) == Sum(x, n, BASE) - coef * Sum(p, n, BASE)
  {
    SumLinear(d, x, p, 1, -coef, n, BASE);
    assert (-coef) * Sum(p, n, BASE) == -(coef * Sum(p, n, BASE));
  }

  /** The remainder left by the estimated quotient is below 2p, for any nine words. */
  lemma FastModBound(x: seq<int>, p: int)
    requires |x| == 9 && Modulus(p) && forall i :: 0 <= i < 9 ==> 0 <= x[i] < 0x1_0000_0000
    ensures 0 <= Sum(x, 9, BASE) - x[8] / 0x1_0000 * p < 2 * p
  {
    Expand(x);
    var coef := x[8] / 0x1_0000;
    Product(coef, p, TWO256);
    Product(coef, TWO256 - p, TWO224);
    assert coef * (TWO256 - p) == coef * TWO256 - coef * p;
  }

  /** Removing a multiple of W from a sum below W leaves the sum. */
  lemma DropMultiple(v: int, k: int, w: int)
    requires 0 <= v < w
    ensures (v + k * w) % w == v
  {
    DivModUnique(v + k * w, w, k, v);
  }

  lemma SameRemainder(v: int, k: int, w: int)
    requires w > 0
    ensures (v + k * w) % w == v % w && (0 <= v < w ==> v % w == v)
  {
    DivMod(v, w);
    assert (v / w + k) * w == v / w * w + k * w;
    DivModUnique(v + k * w, w, v / w + k, v % w);
    if 0 <= v < w {
      DivModUnique(v, w, 0, v);
    }
  }

  ghost predicate LessMultiple(r: int, v: int, q: int, p: int)
  {
    r == v - q * p
  }

  /** Partly reduces any nine words, normalized or not. */
  method BnFastMod(x: array<word>, prime: array<word>)
    requires x.Length == 9 && IsModulus(prime) && x != prime
    modifies x
    ensures PartlyReduced(x, Val(prime))
    ensures LessMultiple(Val(x), old(Val(x)), old(x[8]) / 0x1_0000, Val(prime))
    ensures Cong(Val(x), old(Val(x)), Val(prime))
  {
    hide Sum, Weight;
    ghost var x0, p := x[..], prime[..];
    var coef: word := x[8] / 0x1_0000;
    ghost var c := Columns(x0, p, coef);
    ProductBound(prime[0], coef, BASE - 1, 0xFFFF);
    var temp: dword := 0x2000_0000_0000_0000 + x[0] as dword - prime[0] as dword * coef as dword;
    assert c[0] == Column(x0, p, coef, 0) == temp;
    CarryStart(x[..], c, 0, BASE);
    x[0] := temp % 0x4000_0000;
    CarryStep(x0, x[..], c, 0, 0, temp / 0x4000_0000, 0, BASE);
    var j := 1;
    while j < 9
      invariant 1 <= j <= 9 && temp < 0x4000_0000_0000_0000
      invariant forall m :: 0 <= m < j ==> x[m] < BASE
      invariant forall m :: j <= m < 9 ==> x[m] == x0[m]
      invariant Carried(x[..], c, j, temp / 0x4000_0000, 0, BASE)
    {
      ghost var s, t := x[..], temp / 0x4000_0000;
      ProductBound(prime[j], coef, BASE - 1, 0xFFFF);
      var product: dword := prime[j] as dword * coef as dword;
      temp := temp / 0x4000_0000;
      temp := temp + (0x1FFF_FFFF_8000_0000 + x[j] as dword - product);
      assert c[j] == Column(x0, p, coef, j) == 0x1FFF_FFFF_8000_0000 + x0[j] as int - product as int;
      x[j] := temp % 0x4000_0000;
      CarryStep(s, x[..], c, j, t, temp / 0x4000_0000, 0, BASE);
      j := j + 1;
    }
    CarryEnd(x[..], c, 9, temp / 0x4000_0000, 0, BASE);
    FastModValue(x0, p, coef);
  }

  lemma MinusMultiple(x: int, q: int, p: int)
    requires p > 0
    ensures Cong(x - q * p, x, p)
  {
    assert (-q) * p == -(q * p);
    Intro(x - q * p, x, p, -q);
  }

  lemma FastModValue(x: seq<int>, p: seq<int>, coef: int)
    requires |x| == |p| == 9 && forall i :: 0 <= i < 9 ==> 0 <= x[i] < 0x1_0000_0000
    requires Modulus(Sum(p, 9, BASE)) && coef == x[8] / 0x1_0000
    ensures (Sum(Columns(x, p, coef), 9, BASE) + 0) % Weight(BASE, 9) == Sum(x, 9, BASE) - coef * Sum(p, 9, BASE)
    ensures 0 <= Sum(x, 9, BASE) - coef * Sum(p, 9, BASE) < 2 * Sum(p, 9, BASE)
    ensures Cong(Sum(x, 9, BASE) - coef * Sum(p, 9, BASE), Sum(x, 9, BASE), Sum(p, 9, BASE))
  {
    SumColumns(x, p, coef, 9);
    FastModBound(x, Sum(p, 9, BASE));
    Weights();
    DropMultiple(Sum(x, 9, BASE) - coef * Sum(p, 9, BASE), 0x8000_0000, Weight(BASE, 9));
    MinusMultiple(Sum(x, 9, BASE), coef, Sum(p, 9, BASE));
  }

  /** x mod prime, for a partly reduced x. */
  method BnMod(x: array<word>, prime: array<word>)
    requires IsModulus(prime) && PartlyReduced(x, Val(prime)) && x != prime
    modifies x
    ensures Reduced(x, Val(prime)) && Val(x) == old(Val(x)) % Val(prime)
  {
    ghost var v := Val(x);
    NormBound(x);
    var flag := BnIsLess(x, prime);
    var temp := new word[9];
    BnSubtract(x, prime, temp);
    BnCmov(x, flag, x, temp);
    ModBySubtraction(v, Val(prime));
  }

  lemma ModBySubtraction(v: int, p: int)
    requires Modulus(p) && 0 <= v < 2 * p
    ensures v % p == if v < p then v else v - p
    ensures v >= p ==> (v - p) % Weight(BASE, 9) == v - p
  {
    Weights();
    if v < p {
      DivModUnique(v, p, 0, v);
    } else {
      DivModUnique(v, p, 1, v - p);
      DropMultiple(v - p, 0, Weight(BASE, 9));
    }
  }

  /** res = a - b + 2 * prime; normalized, not reduced.  The 32-bit accumulator reaches 2^32 - 1. */
  method BnSubtractMod(a: array<word>, b: array<word>, res: array<word>, prime: array<word>)
    requires Norm(a) && IsModulus(prime) && PartlyReduced(b, Val(prime)) && res.Length == 9 && res != prime
    modifies res
    ensures Norm(res) && Val(res) == (old(Val(a)) + 2 * Val(prime) - old(Val(b))) % Weight(BASE, 9)
    ensures old(Val(a)) + 2 * Val(prime) < TWO270 ==> Val(res) == old(Val(a)) + 2 * Val(prime) - old(Val(b))
  {
    hide Sum, Weight;
    ghost var a0, b0, p := a[..], b[..], prime[..];
    NormBound(a);
    NormBound(b);
    ghost var c: seq<int> := seq(9, i requires 0 <= i < 9 => BASE - 1 + a0[i] as int + 2 * p[i] as int - b0[i] as int);
    var temp: word := 1;
    CarryStart(res[..], c, 1, BASE);
    var i := 0;
    while i < 9
      invariant 0 <= i <= 9 && temp <= 3
      invariant forall m :: 0 <= m < i ==> res[m] < BASE
      invariant forall m :: i <= m < 9 ==> a[m] == a0[m] && b[m] == b0[m]
      invariant Carried(res[..], c, i, temp, 1, BASE)
    {
      ghost var s, t := res[..], temp;
      temp := temp + (0x3FFF_FFFF + a[i] + 2 * prime[i] - b[i]);
      res[i] := temp % 0x4000_0000;
      temp := temp / 0x4000_0000;
      CarryStep(s, res[..], c, i, t, temp, 1, BASE);
      i := i + 1;
    }
    CarryEnd(res[..], c, 9, temp, 1, BASE);
    SumRaised(c, a0, p, 2, b0, 9, BASE);
    Weights();
    SameRemainder(Sum(a0, 9, BASE) + 2 * Sum(p, 9, BASE) - Sum(b0, 9, BASE), 1, Weight(BASE, 9));
  }

  /** x = k * x, partly reduced. */
  method BnMultK(x: array<word>, k: byte, prime: array<word>)
    requires Norm(x) && IsModulus(prime) && x != prime && k <= 4
    modifies x
    ensures PartlyReduced(x, Val(prime)) && Times(Val(x), k, old(Val(x)), Val(prime))
  {
    ghost var x0 := x[..];
    var j := 0;
    while j < 9
      invariant 0 <= j <= 9
      invariant forall m :: 0 <= m < j ==> x[m] == k as word * x0[m]
      invariant forall m :: j <= m < 9 ==> x[m] == x0[m]
    {
      ProductBound(k, x[j], 4, BASE - 1);
      x[j] := k as word * x[j];
      j := j + 1;
    }
    SumLinear(x[..], x0, x0, k, 0, 9, BASE);
    assert Val(x) == k as int * Sum(x0, 9, BASE);
    BnFastMod(x, prime);
  }

  /** x = x / 2 modulo prime: the even one of x and x + prime is halved. */
  method BnMultHalf(x: array<word>, prime: array<word>)
    requires Norm(x) && IsModulus(prime) && x != prime
    modifies x
    ensures Norm(x)
    ensures 2 * Val(x) == old(Val(x)) + (if old(x[0]) % 2 == 1 then Val(prime) else 0)
    ensures Cong(2 * Val(x), old(Val(x)), Val(prime))
  {
    hide And, Sum, Weight, Carried;
    ghost var x0, p := x[..], prime[..];
    var xodd: word := if x[0] % 2 == 1 then 0xFFFF_FFFF else 0;
    ghost var y: seq<int> := seq(9, i requires 0 <= i < 9 => x0[i] as int + if xodd == 0 then 0 else p[i]);
    ghost var out: seq<int> := seq(9, i => 0);
    LowestLimbOdd(prime);
    MaskWord(prime[0], xodd);
    var tmp1: word := (x[0] + And(prime[0], xodd)) / 2;
    assert 2 * tmp1 as int == y[0];
    CarryStart(out, y, 0, BASE);
    var j := 0;
    while j < 8
      invariant 0 <= j <= 8 && |out| == 9 && tmp1 < 0x4000_0001
      invariant forall m :: 0 <= m < j ==> x[m] < BASE && out[m] == 2 * x[m] as int
      invariant forall m :: j <= m < 9 ==> x[m] == x0[m]
      invariant Halving(out, y, j, tmp1)
    {
      ghost var t, o := tmp1, out;
      MaskWord(prime[j + 1], xodd);
      var tmp2: word := x[j + 1] + And(prime[j + 1], xodd);
      tmp1 := tmp1 + tmp2 % 2 * 0x2000_0000;
      x[j] := tmp1 % 0x4000_0000;
      out := out[j := 2 * x[j] as int];
      tmp1 := tmp1 / 0x4000_0000;
      tmp1 := tmp1 + tmp2 / 2;
      HalvingStep(o, out, y, j, t);
      j := j + 1;
    }
    x[8] := tmp1;
    CarryStep(out, out[8 := 2 * tmp1 as int], y, 8, 2 * tmp1 as int - y[8], 0, 0, BASE);
    HalfValue(x0, p, y, out[8 := 2 * tmp1 as int], x[..], xodd != 0);
  }

  /** The digits written so far, doubled, and the accumulator make up columns 0..j of y. */
  ghost predicate Halving(out: seq<int>, y: seq<int>, j: nat, tmp1: int)
    requires j < |y|
  {
    Carried(out, y, j, 2 * tmp1 - y[j], 0, BASE)
  }

  lemma HalvingStep(out: seq<int>, out': seq<int>, y: seq<int>, j: nat, tmp1: nat)
    requires j + 1 < |out| == |y| && 0 <= y[j + 1] && Halving(out, y, j, tmp1)
    requires out' == out[j := 2 * ((tmp1 + y[j + 1] % 2 * 0x2000_0000) % BASE)]
    ensures Halving(out', y, j + 1, (tmp1 + y[j + 1] % 2 * 0x2000_0000) / BASE + y[j + 1] / 2)
  {
    var t := tmp1 + y[j + 1] % 2 * 0x2000_0000;
    CarryStep(out, out', y, j, 2 * tmp1 - y[j], 2 * (t / BASE + y[j + 1] / 2) - y[j + 1], 0, BASE);
  }

  lemma MaskWord(x: word, mask: word)
    requires mask == 0 || mask == 0xFFFF_FFFF
    ensures And(x, mask) == if mask == 0 then 0 else x
  {
    Pow2Values();
    AndMask(x, 32);
    SmallResidue(x, Pow2(32));
  }

  lemma LowestLimbOdd(prime: array<word>)
    requires IsModulus(prime)
    ensures prime[0] % 2 == 1
  {
    SumParity(prime[..], 9, BASE);
  }

  lemma HalfValue(x: seq<int>, p: seq<int>, y: seq<int>, out: seq<int>, r: seq<int>, odd: bool)
    requires |x| == |p| == |y| == |out| == |r| == 9
    requires Normal(x, BASE) && Normal(p, BASE) && Modulus(Sum(p, 9, BASE))
    requires forall i :: 0 <= i < 9 ==> y[i] == x[i] + if odd then p[i] else 0
    requires forall i :: 0 <= i < 9 ==> out[i] == 2 * r[i] && 0 <= r[i]
    requires Carried(out, y, 9, 0, 0, BASE)
    ensures 2 * Sum(r, 9, BASE) == Sum(x, 9, BASE) + if odd then Sum(p, 9, BASE) else 0
    ensures Cong(2 * Sum(r, 9, BASE), Sum(x, 9, BASE), Sum(p, 9, BASE))
    ensures r[8] < BASE
  {
    hide Cong;
    HalfSum(x, p, y, out, r, odd);
    hide Sum, Weight, Carried;
    Intro(2 * Sum(r, 9, BASE), Sum(x, 9, BASE), Sum(p, 9, BASE), if odd then 1 else 0);
    HalfLimb(x, r, if odd then Sum(p, 9, BASE) else 0);
  }

  lemma HalfSum(x: seq<int>, p: seq<int>, y: seq<int>, out: seq<int>, r: seq<int>, odd: bool)
    requires |x| == |p| == |y| == |out| == |r| == 9
    requires forall i :: 0 <= i < 9 ==> y[i] == x[i] + if odd then p[i] else 0
    requires forall i :: 0 <= i < 9 ==> out[i] == 2 * r[i]
    requires Carried(out, y, 9, 0, 0, BASE)
    ensures 2 * Sum(r, 9, BASE) == Sum(x, 9, BASE) + if odd then Sum(p, 9, BASE) else 0
  {
    CarriedAll(out, y);
    hide Sum, Weight, Carried;
    SumLinear(y, x, p, 1, if odd then 1 else 0, 9, BASE);
    SumLinear(out, r, r, 2, 0, 9, BASE);
  }

  lemma CarriedAll(out: seq<int>, c: seq<int>)
    requires |out| == |c| == 9 && Carried(out, c, 9, 0, 0, BASE)
    ensures Sum(out, 9, BASE) == Sum(c, 9, BASE)
  {
  }

  lemma HalfLimb(x: seq<int>, r: seq<int>, p: int)
    requires |x| == |r| == 9 && Normal(x, BASE) && p < TWO256
    requires forall i :: 0 <= i < 9 ==> 0 <= r[i]
    requires 2 * Sum(r, 9, BASE) == Sum(x, 9, BASE) + p
    ensures r[8] < BASE
  {
    SumBound(x, 9, BASE);
    SumNonNegative(r, 8, BASE);
    TopTerm(r);
    Weights();
  }

  /** a = a + b, partly reduced. */
  method BnAddMod(a: array<word>, b: array<word>, prime: array<word>)
    requires Norm(a) && Norm(b) && IsModulus(prime) && a != prime
    modifies a
    ensures PartlyReduced(a, Val(prime)) && Cong(Val(a), old(Val(a)) + old(Val(b)), Val(prime))
  {
    ghost var a0, b0 := a[..], b[..];
    var i := 0;
    while i < 9
      invariant 0 <= i <= 9
      invariant forall m :: 0 <= m < i ==> a[m] == a0[m] + b0[m]
      invariant forall m :: i <= m < 9 ==> a[m] == a0[m] && b[m] == b0[m]
    {
      a[i] := a[i] + b[i];
      i := i + 1;
    }
    SumLinear(a[..], a0, b0, 1, 1, 9, BASE);
    BnFastMod(a, prime);
  }

  /** a = a - b + prime.  The lowest limb may wrap around; adding the prime undoes that. */
  method BnSubi(a: array<word>, b: word, prime: array<word>)
    requires Norm(a) && IsModulus(prime) && a != prime && b <= prime[0]
    modifies a
    ensures Norm(a) && Val(a) == (old(Val(a)) + Val(prime) - b) % Weight(BASE, 9)
    ensures old(Val(a)) + Val(prime) < TWO270 ==> Val(a) == old(Val(a)) + Val(prime) - b
  {
    hide Sum, Weight, Wrap32;
    ghost var a0, p := a[..], prime[..];
    NormBound(a);
    NormBound(prime);
    a[0] := Wrap32(a[0] - b as int);
    ghost var a1 := a[..];
    WrapTwice(a0[0] - b as int, p[0]);
    // bn_add, with the first limb out of range
    ghost var c: seq<int> := seq(9, i requires 0 <= i < 9 => a0[i] as int + p[i] as int - if i == 0 then b else 0);
    var tmp: word := 0;
    CarryStart(a[..], c, 0, BASE);
    var i := 0;
    while i < 9
      invariant 0 <= i <= 9 && tmp <= 1
      invariant forall m :: 0 <= m < i ==> a[m] < BASE
      invariant forall m :: i <= m < 9 ==> a[m] == a1[m]
      invariant i == 0 ==> tmp == 0
      invariant Carried(a[..], c, i, tmp, 0, BASE)
    {
      ghost var s, t := a[..], tmp;
      if i > 0 {
        NoWrap(tmp as int + a[i] as int + prime[i] as int);
      }
      tmp := Wrap32(tmp as int + a[i] as int + prime[i] as int);
      assert tmp == t as int + c[i];
      a[i] := tmp % 0x4000_0000;
      tmp := tmp / 0x4000_0000;
      CarryStep(s, a[..], c, i, t, tmp, 0, BASE);
      i := i + 1;
    }
    CarryEnd(a[..], c, 9, tmp, 0, BASE);
    SubiColumns(a0, p, c, b);
    SumAtLeast(p);
    SameRemainder(Sum(c, 9, BASE), 0, TWO270);
  }

  lemma WrapTwice(x: int, y: int)
    requires 0 <= x + y < TWO32
    ensures Wrap32(Wrap32(x) + y) == x + y
  {
  }

  lemma NoWrap(x: int)
    requires 0 <= x < TWO32
    ensures Wrap32(x) == x
  {
  }

  lemma SumAtLeast(p: seq<word>)
    requires |p| == 9
    ensures p[0] <= Sum(p, 9, BASE)
  {
    Expand(p);
  }

  lemma SubiColumns(a: seq<int>, p: seq<int>, c: seq<int>, b: int)
    requires |a| == |c| == |p| == 9
    requires forall i :: 0 <= i < 9 ==> c[i] == a[i] + p[i] - if i == 0 then b else 0
    ensures Sum(c, 9, BASE) + 0 == Sum(a, 9, BASE) + Sum(p, 9, BASE) - b
    ensures Weight(BASE, 9) == TWO270
  {
    Expand(a);
    Expand(p);
    Expand(c);
    Weights();
  }
}
