/** Modular multiplication (bignum.c): schoolbook product into 18 limbs, then reduction limb by limb. */
module BignumMultiply {
  import opened Words
  import opened Digits
  import opened Congruence
  import opened BignumBasics
  import opened BignumReduce

  ghost function Value18(res: array<word>): int
    requires res.Length == 18
    reads res
  {
    Sum(res[..], 18, BASE)
  }

  ghost predicate Norm18(res: array<word>)
    reads res
  {
    res.Length == 18 && forall i :: 0 <= i < 18 ==> res[i] < BASE
  }

  // ----- the columns of a product

  ghost function At(x: seq<int>, i: int): int
  {
    if 0 <= i < |x| then x[i] else 0
  }

  /** What the first m digits of k contribute to column c of k * x. */
  ghost function Column(k: seq<int>, x: seq<int>, m: nat, c: int): int
    requires m <= |k|
  {
    if m == 0 then 0 else Column(k, x, m - 1, c) + k[m - 1] * At(x, c - (m - 1))
  }

  ghost function Product18(k: seq<int>, x: seq<int>, m: nat): (s: seq<int>)
    requires m <= |k|
    ensures |s| == 18 && forall c :: 0 <= c < 18 ==> s[c] == Column(k, x, m, c)
  {
    seq(18, c => Column(k, x, m, c))
  }

  ghost function Shifted(x: seq<int>, d: nat): (s: seq<int>)
    ensures |s| == 18 && forall c :: 0 <= c < 18 ==> s[c] == At(x, c - d)
  {
    seq(18, c => At(x, c - d))
  }

  lemma {:induction false} ShiftedSum(x: seq<int>, d: nat, n: nat)
    requires d + n <= 18 && n <= |x| == 9
    ensures Sum(Shifted(x, d), d + n, BASE) == Sum(x, n, BASE) * Weight(BASE, d)
  {
    if n == 0 {
      SumZero(Shifted(x, d), d, BASE);
    } else {
      ShiftedSum(x, d, n - 1);
      WeightAdd(BASE, n - 1, d);
      Distribute(Sum(x, n - 1, BASE), x[n - 1], Weight(BASE, n - 1), Weight(BASE, d));
      assert Shifted(x, d)[d + n - 1] == x[n - 1];
    }
  }

  /** The columns of a product add up to the product. */
  lemma {:induction false} ProductValue(k: seq<int>, x: seq<int>, m: nat)
    requires m <= |k| == |x| == 9
    ensures Sum(Product18(k, x, m), 18, BASE) == Sum(k, m, BASE) * Sum(x, 9, BASE)
  {
    var s := Product18(k, x, m);
    if m == 0 {
      SumZero(s, 18, BASE);
    } else {
      ProductValue(k, x, m - 1);
      var d := m - 1;
      SumLinear(s, Product18(k, x, d), Shifted(x, d), 1, k[d], 18, BASE);
      ShiftedSum(x, d, 9);
      SumTail(Shifted(x, d), d + 9, 18, BASE);
      Distribute(Sum(k, d, BASE), k[d], Weight(BASE, d), Sum(x, 9, BASE));
      assert Sum(k, m, BASE) == Sum(k, d, BASE) + k[d] * Weight(BASE, d);
      hide Sum, Weight, Column;
    }
  }

  /** Digits above c do not reach column c. */
  lemma {:induction false} ColumnHigh(k: seq<int>, x: seq<int>, m: nat, c: nat)
    requires c < m <= |k|
    ensures Column(k, x, m, c) == Column(k, x, c + 1, c)
  {
    if m > c + 1 {
      ColumnHigh(k, x, m - 1, c);
    }
  }

  /** Digits more than |x| - 1 below c do not reach column c. */
  lemma {:induction false} ColumnLow(k: seq<int>, x: seq<int>, m: nat, c: nat)
    requires m <= |k| && m + |x| <= c + 1
    ensures Column(k, x, m, c) == 0
  {
    if m > 0 {
      ColumnLow(k, x, m - 1, c);
    }
  }

  lemma ColumnStart(k: seq<int>, x: seq<int>, c: int)
    ensures Column(k, x, 0, c) == 0
  {
  }

  lemma ColumnStep(k: seq<int>, x: seq<int>, j: nat, c: nat)
    requires j < |k| && 0 <= c - j < |x| && Normal(k, BASE) && Normal(x, BASE)
    ensures Column(k, x, j + 1, c) == Column(k, x, j, c) + k[j] * x[c - j]
    ensures 0 <= k[j] * x[c - j] <= LIMB2
  {
    ProductBound(k[j], x[c - j], 0x3FFF_FFFF, 0x3FFF_FFFF);
  }

  /** Largest product of two limbs. */
  const LIMB2: int := 0x3FFF_FFFF * 0x3FFF_FFFF

  /** The inner loops: adds k[j] * x[i - j] for j from low to high - 1. */
  method AddProducts(k: array<word>, x: array<word>, i: nat, low: nat, high: nat, temp: dword) returns (sum: dword)
    requires Norm(k) && Norm(x) && low <= high <= 9 && high - 1 <= i <= low + 8 && temp < 0x4_0000_0000
    ensures sum == temp + Column(k[..], x[..], high, i) - Column(k[..], x[..], low, i)
    ensures sum <= temp + (high - low) * LIMB2
  {
    hide Column;
    sum := temp;
    var j := low;
    while j < high
      invariant low <= j <= high
      invariant sum == temp + Column(k[..], x[..], j, i) - Column(k[..], x[..], low, i)
      invariant sum <= temp + (j - low) * LIMB2
    {
      ColumnStep(k[..], x[..], j, i);
      sum := sum + k[j] as dword * x[i - j] as dword;
      j := j + 1;
    }
  }

  /** res = k * x, exactly. */
  method BnMultiplyLong(k: array<word>, x: array<word>, res: array<word>)
    requires Norm(k) && Norm(x) && res.Length == 18
    modifies res
    ensures Norm18(res) && Value18(res) == Val(k) * Val(x)
  {
    hide Sum, Weight, Carried, Column;
    ghost var k0, x0 := k[..], x[..];
    ghost var c := Product18(k0, x0, 9);
    var temp: dword := 0;
    CarryStart(res[..], c, 0, BASE);
    var i := 0;
    while i < 9
      invariant 0 <= i <= 9 && temp < 0x4_0000_0000
      invariant forall m :: 0 <= m < i ==> res[m] < BASE
      invariant Carried(res[..], c, i, temp, 0, BASE)
    {
      ghost var s, t := res[..], temp;
      ColumnStart(k0, x0, i);
      temp := AddProducts(k, x, i, 0, i + 1, temp);
      ColumnHigh(k0, x0, 9, i);
      res[i] := temp % 0x4000_0000;
      temp := temp / 0x4000_0000;
      CarryStep(s, res[..], c, i, t, temp, 0, BASE);
      i := i + 1;
    }
    while i < 17
      invariant 9 <= i <= 17 && temp < 0x4_0000_0000
      invariant forall m :: 0 <= m < i ==> res[m] < BASE
      invariant Carried(res[..], c, i, temp, 0, BASE)
    {
      ghost var s, t := res[..], temp;
      ColumnLow(k0, x0, i - 8, i);
      temp := AddProducts(k, x, i, i - 8, 9, temp);
      res[i] := temp % 0x4000_0000;
      temp := temp / 0x4000_0000;
      CarryStep(s, res[..], c, i, t, temp, 0, BASE);
      i := i + 1;
    }
    LastLimb(k0, x0, res[..], temp);
    ghost var s := res[..];
    res[17] := temp;
    CarryStep(s, res[..], c, 17, temp, 0, 0, BASE);
    ProductValue(k0, x0, 9);
    CarryEnd(res[..], c, 18, 0, 0, BASE);
    ProductFits(k0, x0);
    DropMultiple(Val(k) * Val(x), 0, Weight(BASE, 18));
  }

  lemma ProductFits(k: seq<int>, x: seq<int>)
    requires |k| == |x| == 9 && Normal(k, BASE) && Normal(x, BASE)
    ensures 0 <= Sum(k, 9, BASE) * Sum(x, 9, BASE) < Weight(BASE, 18)
  {
    SumBound(k, 9, BASE);
    SumBound(x, 9, BASE);
    WeightAdd(BASE, 9, 9);
    hide Sum, Weight;
    ProductBelow(Sum(k, 9, BASE), Sum(x, 9, BASE), Weight(BASE, 9));
  }

  lemma LastLimb(k: seq<int>, x: seq<int>, res: seq<int>, temp: nat)
    requires |k| == |x| == 9 && Normal(k, BASE) && Normal(x, BASE) && |res| == 18
    requires forall m :: 0 <= m < 17 ==> 0 <= res[m] < BASE
    requires Carried(res, Product18(k, x, 9), 17, temp, 0, BASE)
    ensures temp < BASE
    ensures Product18(k, x, 9)[17] == 0
  {
    var c := Product18(k, x, 9);
    ColumnLow(k, x, 9, 17);
    ProductValue(k, x, 9);
    assert Sum(c, 18, BASE) == Sum(c, 17, BASE);
    assert Weight(BASE, 18) == BASE * Weight(BASE, 17);
    ProductFits(k, x);
    SumBound(res, 17, BASE);
    hide Sum, Weight;
    if temp >= BASE {
      Product(Weight(BASE, 17), BASE, temp);
      assert false;
    }
  }

  // ----- reduction

  /** Limbs k .. k + 9. */
  ghost function Window(res: seq<int>, k: nat): (y: seq<int>)
    requires k + 10 <= |res|
    ensures |y| == 10
  {
    res[k..k + 10]
  }

  /** A number whose limbs from k + 10 on are zero, cut at limb k. */
  lemma WindowValue(res: seq<int>, k: nat)
    requires |res| == 18 && k <= 8 && forall m :: k + 10 <= m < 18 ==> res[m] == 0
    ensures Sum(res, 18, BASE) == Sum(res, k, BASE) + Sum(Window(res, k), 10, BASE) * Weight(BASE, k)
  {
    SumTail(res, k + 10, 18, BASE);
    SumSplit(res, k, k + 10, BASE);
    SumSame(res[k..], Window(res, k), 10, BASE);
  }

  /** A bound on the value makes the limbs above it zero. */
  lemma {:induction false} HighLimbsZero(res: seq<int>, n: nat, m: nat)
    requires m <= n <= |res| && Normal(res, BASE) && Sum(res, n, BASE) < Weight(BASE, m)
    ensures forall i :: m <= i < n ==> res[i] == 0
    decreases n
  {
    if m < n {
      SumBound(res, n - 1, BASE);
      WeightMono(BASE, m, n - 1);
      if res[n - 1] > 0 {
        Product(Weight(BASE, n - 1), 1, res[n - 1]);
        assert false;
      }
      HighLimbsZero(res, n - 1, m);
    }
  }

  /** The quotient estimated from the two top limbs of the window. */
  ghost function Estimate(y: seq<int>): int
    requires |y| == 10
  {
    y[8] / 0x1_0000 + y[9] * 0x4000
  }

  /** Subtracting the estimated multiple of p leaves less than 2p. */
  lemma EstimateBound(y: seq<int>, p: int)
    requires |y| == 10 && Normal(y, BASE) && Modulus(p) && Sum(y, 10, BASE) < 0x8000_0000 * p
    ensures 0 <= Estimate(y) < 0x8000_0000 && y[9] < 0x2_0000
    ensures 0 <= Sum(y, 10, BASE) - Estimate(y) * p < 2 * p
  {
    var coef := Estimate(y);
    assert Sum(y, 10, BASE) == Sum(y, 8, BASE) + y[8] * Weight(BASE, 8) + y[9] * Weight(BASE, 9) by {
      assert Sum(y, 9, BASE) == Sum(y, 8, BASE) + y[8] * Weight(BASE, 8);
    }
    SumBound(y, 8, BASE);
    Weights();
    hide Sum, Weight;
    assert coef * TWO256 <= Sum(y, 10, BASE) < (coef + 1) * TWO256;
    Product(coef, p, TWO256);
    Product(coef, TWO256 - p, TWO224);
    assert coef * (TWO256 - p) == coef * TWO256 - coef * p;
    ProductBound(coef, TWO224, 0x7FFF_FFFF, TWO224);
  }

  /** T < B * W(k) * 2p restated for the window. */
  lemma WindowBound(low: int, y: int, w: nat, p: int)
    requires 0 <= low && w > 0 && low + y * w < BASE * w * (2 * p)
    ensures y < 0x8000_0000 * p
  {
    assert BASE * w * (2 * p) == (BASE * 2 * p) * w;
    if y >= BASE * 2 * p {
      Product(w, BASE * 2 * p, y);
    }
  }

  lemma StepBound(low: int, y: int, w: nat, p: int)
    requires 0 <= low < w && 0 <= y < 2 * p
    ensures 0 <= low + y * w < w * (2 * p)
  {
    Product(w, y, 2 * p - 1);
    Product(w, 0, y);
    assert (2 * p - 1) * w == w * (2 * p) - w;
  }

  lemma MinusScaled(y: int, coef: int, p: int, w: int)
    ensures (y - coef * p) * w == y * w - (coef * w) * p
  {
    assert (coef * p) * w == (coef * w) * p;
  }

  lemma TopLimbZero(r: seq<int>, k: nat, p: int)
    requires |r| == 18 && k <= 8 && Normal(r, BASE) && Modulus(p) && Sum(Window(r, k), 10, BASE) < 2 * p
    ensures r[k + 9] == 0
  {
    var y := Window(r, k);
    Weights();
    hide Sum, Weight;
    HighLimbsZero(y, 10, 9);
    assert y[9] == r[k + 9];
  }

  /** What one reduction step does to the whole number. */
  lemma StepValue(r0: seq<int>, r1: seq<int>, k: nat, p: int)
    requires |r0| == |r1| == 18 && k <= 8 && Normal(r0, BASE) && Normal(r1, BASE) && Modulus(p)
    requires forall m :: 0 <= m < 18 && !(k <= m < k + 10) ==> r1[m] == r0[m]
    requires forall m :: k + 10 <= m < 18 ==> r0[m] == 0
    requires Sum(Window(r1, k), 10, BASE) == Sum(Window(r0, k), 10, BASE) - Estimate(Window(r0, k)) * p
    requires 0 <= Sum(Window(r1, k), 10, BASE) < 2 * p
    ensures Sum(r1, 18, BASE) < Weight(BASE, k) * (2 * p)
    ensures Cong(Sum(r1, 18, BASE), Sum(r0, 18, BASE), p)
  {
    hide Sum, Weight, Cong, Estimate, Window;
    var y0, y1 := Window(r0, k), Window(r1, k);
    WindowValue(r0, k);
    WindowValue(r1, k);
    SumSame(r0, r1, k, BASE);
    SumBound(r1, k, BASE);
    var coef, w := Estimate(y0), Weight(BASE, k);
    StepBound(Sum(r1, k, BASE), Sum(y1, 10, BASE), w, p);
    MinusScaled(Sum(y0, 10, BASE), coef, p, w);
    MinusMultiple(Sum(r0, 18, BASE), coef * w, p);
  }

  /** Column sum of one step, for the window with a zero limb above the modulus. */
  lemma StepColumns(y: seq<int>, p: seq<int>, coef: int)
    requires |y| == 10 && |p| == 9 && 0 <= Sum(y, 10, BASE) - coef * Sum(p, 9, BASE) < TWO270
    ensures (Sum(Columns(y, p + [0], coef), 10, BASE) + 0) % Weight(BASE, 10)
         == Sum(y, 10, BASE) - coef * Sum(p, 9, BASE)
  {
    SumColumns(y, p + [0], coef, 10);
    SumSame(p + [0], p, 9, BASE);
    assert Sum(p + [0], 10, BASE) == Sum(p, 9, BASE);
    Weights();
    WeightMono(BASE, 9, 10);
    hide Sum, Weight;
    DropMultiple(Sum(y, 10, BASE) - coef * Sum(p, 9, BASE), 0x8000_0000, Weight(BASE, 10));
  }

  /** res -= coef * 2^(30k) * prime, on limbs k .. k + 9.  The bias keeps the 64-bit accumulator from underflowing:
      (2^31 - 1) * (2^30 - 1) still fits below it. */
  method SubtractScaled(res: array<word>, prime: array<word>, coef: word, k: nat)
    requires Norm18(res) && Norm(prime) && k <= 8 && coef < 0x8000_0000
    modifies res
    ensures Norm18(res)
    ensures forall m :: 0 <= m < 18 && !(k <= m < k + 10) ==> res[m] == old(res[m])
    ensures Sum(Window(res[..], k), 10, BASE)
         == (Sum(Columns(Window(old(res[..]), k), prime[..] + [0], coef), 10, BASE) + 0) % Weight(BASE, 10)
  {
    hide Sum, Weight, Carried;
    ghost var r0, p := res[..], prime[..];
    ghost var y := Window(r0, k);
    ghost var c := Columns(y, p + [0], coef);
    ProductBound(prime[0], coef, BASE - 1, 0x7FFF_FFFF);
    var temp: dword := 0x2000_0000_0000_0000 + res[k] as dword - prime[0] as dword * coef as dword;
    assert c[0] == temp;
    CarryStart(y, c, 0, BASE);
    res[k] := temp % 0x4000_0000;
    CarryStep(y, Window(res[..], k), c, 0, 0, temp / 0x4000_0000, 0, BASE);
    var j := 1;
    while j < 9
      invariant 1 <= j <= 9 && temp < 0x4000_0000_0000_0000 && Norm18(res)
      invariant forall m :: 0 <= m < 18 && !(k <= m < k + j) ==> res[m] == r0[m]
      invariant Carried(Window(res[..], k), c, j, temp / 0x4000_0000, 0, BASE)
    {
      ghost var s, t := Window(res[..], k), temp / 0x4000_0000;
      ProductBound(prime[j], coef, BASE - 1, 0x7FFF_FFFF);
      var product: dword := prime[j] as dword * coef as dword;
      temp := temp / 0x4000_0000;
      temp := temp + (0x1FFF_FFFF_8000_0000 + res[k + j] as dword - product);
      assert c[j] == 0x1FFF_FFFF_8000_0000 + y[j] - product as int;
      res[k + j] := temp % 0x4000_0000;
      CarryStep(s, Window(res[..], k), c, j, t, temp / 0x4000_0000, 0, BASE);
      j := j + 1;
    }
    ghost var s, t := Window(res[..], k), temp / 0x4000_0000;
    temp := temp / 0x4000_0000;
    temp := temp + (0x1FFF_FFFF_8000_0000 + res[k + j] as dword);
    assert c[9] == 0x1FFF_FFFF_8000_0000 + y[9];
    res[k + j] := temp % 0x4000_0000;
    CarryStep(s, Window(res[..], k), c, 9, t, temp / 0x4000_0000, 0, BASE);
    CarryEnd(Window(res[..], k), c, 10, temp / 0x4000_0000, 0, BASE);
  }

  /** One reduction step: removes the multiple of 2^(30(i-8)) * prime estimated from limbs i and i + 1. */
  method BnMultiplyReduceStep(res: array<word>, prime: array<word>, i: nat)
    requires Norm18(res) && IsModulus(prime) && 8 <= i <= 16
    requires Value18(res) < Weight(BASE, i - 7) * (2 * Val(prime))
    modifies res
    ensures Norm18(res) && res[i + 1] == 0
    ensures Value18(res) < Weight(BASE, i - 8) * (2 * Val(prime))
    ensures Cong(Value18(res), old(Value18(res)), Val(prime))
  {
    hide Sum, Weight;
    ghost var r0, p := res[..], prime[..];
    var k := i - 8;
    ghost var y := Window(r0, k);
    StepPrecondition(r0, k, Val(prime));
    EstimateBound(y, Val(prime));
    var coef: word := res[i] / 0x1_0000 + res[i + 1] * 0x4000;
    SubtractScaled(res, prime, coef, k);
    StepColumns(y, p, coef);
    StepValue(r0, res[..], k, Val(prime));
    TopLimbZero(res[..], k, Val(prime));
  }

  lemma StepPrecondition(r: seq<int>, k: nat, p: int)
    requires |r| == 18 && k <= 8 && Normal(r, BASE) && Modulus(p)
    requires Sum(r, 18, BASE) < Weight(BASE, k + 1) * (2 * p)
    ensures forall m :: k + 10 <= m < 18 ==> r[m] == 0
    ensures Normal(Window(r, k), BASE) && Sum(Window(r, k), 10, BASE) < 0x8000_0000 * p
  {
    Weights();
    WeightAdd(BASE, k + 1, 9);
    Product(Weight(BASE, k + 1), 2 * p, Weight(BASE, 9));
    HighLimbsZero(r, 18, k + 10);
    WindowValue(r, k);
    SumBound(r, k, BASE);
    WindowBound(Sum(r, k, BASE), Sum(Window(r, k), 10, BASE), Weight(BASE, k), p);
  }

  /** x = res, partly reduced. */
  method BnMultiplyReduce(x: array<word>, res: array<word>, prime: array<word>)
    requires x.Length == 9 && Norm18(res) && IsModulus(prime) && x != prime
    requires Value18(res) < Weight(BASE, 9) * (2 * Val(prime))
    modifies x, res
    ensures PartlyReduced(x, Val(prime)) && Cong(Val(x), old(Value18(res)), Val(prime))
  {
    hide Sum, Weight;
    ghost var p, v := Val(prime), Value18(res);
    var i := 16;
    while i >= 8
      invariant 7 <= i <= 16 && Norm18(res)
      invariant Value18(res) < Weight(BASE, i - 7) * (2 * p)
      invariant Cong(Value18(res), v, p)
    {
      label L:
      BnMultiplyReduceStep(res, prime, i);
      Trans(Value18(res), old@L(Value18(res)), v, p);
      i := i - 1;
    }
    ghost var r := res[..];
    ReducedFits(r, p);
    i := 0;
    while i < 9
      invariant 0 <= i <= 9 && res[..] == r
      invariant forall m :: 0 <= m < i ==> x[m] == res[m]
    {
      x[i] := res[i];
      i := i + 1;
    }
    SumSame(x[..], r, 9, BASE);
  }

  lemma ReducedFits(r: seq<int>, p: int)
    requires |r| == 18 && Normal(r, BASE) && Modulus(p) && Sum(r, 18, BASE) < Weight(BASE, 0) * (2 * p)
    ensures Sum(r, 9, BASE) == Sum(r, 18, BASE) < 2 * p
  {
    Weights();
    HighLimbsZero(r, 18, 9);
    SumTail(r, 9, 18, BASE);
  }

  /** x = k * x modulo prime, partly reduced, for factors below 180 * prime.  k and x may be the same number. */
  method BnMultiply(k: array<word>, x: array<word>, prime: array<word>)
    requires Norm(k) && Norm(x) && IsModulus(prime) && x != prime
    requires Val(k) < 180 * Val(prime) && Val(x) < 180 * Val(prime)
    modifies x
    ensures PartlyReduced(x, Val(prime))
    ensures Times(Val(x), old(Val(k)), old(Val(x)), Val(prime))
  {
    var res := new word[18];
    hide Sum, Weight;
    NormBound(k);
    NormBound(x);
    FactorsFit(Val(k), Val(x), Val(prime));
    BnMultiplyLong(k, x, res);
    BnMultiplyReduce(x, res, prime);
  }

  lemma FactorsFit(k: int, x: int, p: int)
    requires Modulus(p) && 0 <= k < 180 * p && 0 <= x < 180 * p
    ensures k * x < Weight(BASE, 9) * (2 * p)
  {
    Weights();
    hide Weight;
    ProductBelow(k, x, 180 * p);
    assert (180 * p) * (180 * p) == p * (32400 * p);
    Product(p, 32400 * p, 2 * TWO270);
  }
}
