/** 256-bit numbers in nine limbs of 30 bits (bignum.c): the unreduced operations. */
module BignumBasics {
  import opened Words
  import opened Digits

  const BASE: nat := 0x4000_0000

  /** The integer a limb array stands for; limbs may exceed 30 bits. */
  ghost function Val(a: array<word>): (v: int)
    requires a.Length == 9
    reads a
    ensures 0 <= v
  {
    SumNonNegative(a[..], 9, BASE);
    Sum(a[..], 9, BASE)
  }

  /** Nine limbs, each below 2^30. */
  ghost predicate Norm(a: array<word>): (r: bool)
    reads a
    ensures r ==> a.Length == 9
  {
    a.Length == 9 && forall i :: 0 <= i < 9 ==> a[i] < BASE
  }

  const TWO224: int := 0x100000000000000000000000000000000000000000000000000000000
  const TWO256: int := 0x10000000000000000000000000000000000000000000000000000000000000000
  const TWO270: int := 0x40000000000000000000000000000000000000000000000000000000000000000000

  /** What every routine assumes of a modulus: odd, and slightly below 2^256. */
  ghost predicate Modulus(p: int)
  {
    TWO256 - TWO224 < p < TWO256 && p % 2 == 1
  }

  ghost predicate IsModulus(prime: array<word>)
    reads prime
  {
    Norm(prime) && Modulus(Val(prime))
  }

  /** Normalized and below twice the modulus: "partly reduced". */
  ghost predicate PartlyReduced(x: array<word>, p: int)
    reads x
  {
    Norm(x) && Val(x) < 2 * p
  }

  ghost predicate Reduced(x: array<word>, p: int)
    reads x
  {
    Norm(x) && Val(x) < p
  }

  lemma Weights()
    ensures Weight(BASE, 0) == 0x1
    ensures Weight(BASE, 1) == 0x40000000
    ensures Weight(BASE, 2) == 0x1000000000000000
    ensures Weight(BASE, 3) == 0x40000000000000000000000
    ensures Weight(BASE, 4) == 0x1000000000000000000000000000000
    ensures Weight(BASE, 5) == 0x40000000000000000000000000000000000000
    ensures Weight(BASE, 6) == 0x1000000000000000000000000000000000000000000000
    ensures Weight(BASE, 7) == 0x40000000000000000000000000000000000000000000000000000
    ensures Weight(BASE, 8) == 0x1000000000000000000000000000000000000000000000000000000000000
    ensures Weight(BASE, 9) == 0x40000000000000000000000000000000000000000000000000000000000000000000
  {
    assert Weight(BASE, 0) == 0x1;
    assert Weight(BASE, 1) == 0x40000000;
    assert Weight(BASE, 2) == 0x1000000000000000;
    assert Weight(BASE, 3) == 0x40000000000000000000000;
    assert Weight(BASE, 4) == 0x1000000000000000000000000000000;
    assert Weight(BASE, 5) == 0x40000000000000000000000000000000000000;
    assert Weight(BASE, 6) == 0x1000000000000000000000000000000000000000000000;
    assert Weight(BASE, 7) == 0x40000000000000000000000000000000000000000000000000000;
    assert Weight(BASE, 8) == 0x1000000000000000000000000000000000000000000000000000000000000;
    assert Weight(BASE, 9) == 0x40000000000000000000000000000000000000000000000000000000000000000000;
  }

  /** The value as a linear expression in the limbs. */
  lemma Expand(a: seq<int>)
    requires |a| == 9
    ensures Sum(a, 9, BASE)
         == a[0]
          + a[1] * 0x40000000
          + a[2] * 0x1000000000000000
          + a[3] * 0x40000000000000000000000
          + a[4] * 0x1000000000000000000000000000000
          + a[5] * 0x40000000000000000000000000000000000000
          + a[6] * 0x1000000000000000000000000000000000000000000000
          + a[7] * 0x40000000000000000000000000000000000000000000000000000
          + a[8] * 0x1000000000000000000000000000000000000000000000000000000000000
  {
    Weights();
    assert Sum(a, 1, BASE) == Sum(a, 0, BASE) + a[0] * Weight(BASE, 0);
    assert Sum(a, 2, BASE) == Sum(a, 1, BASE) + a[1] * Weight(BASE, 1);
    assert Sum(a, 3, BASE) == Sum(a, 2, BASE) + a[2] * Weight(BASE, 2);
    assert Sum(a, 4, BASE) == Sum(a, 3, BASE) + a[3] * Weight(BASE, 3);
    assert Sum(a, 5, BASE) == Sum(a, 4, BASE) + a[4] * Weight(BASE, 4);
    assert Sum(a, 6, BASE) == Sum(a, 5, BASE) + a[5] * Weight(BASE, 5);
    assert Sum(a, 7, BASE) == Sum(a, 6, BASE) + a[6] * Weight(BASE, 6);
    assert Sum(a, 8, BASE) == Sum(a, 7, BASE) + a[7] * Weight(BASE, 7);
    assert Sum(a, 9, BASE) == Sum(a, 8, BASE) + a[8] * Weight(BASE, 8);
  }

  lemma TopTerm(x: seq<int>)
    requires |x| == 9
    ensures Sum(x, 9, BASE) == Sum(x, 8, BASE) + x[8] * 0x1000000000000000000000000000000000000000000000000000000000000
  {
    Weights();
    assert Sum(x, 9, BASE) == Sum(x, 8, BASE) + x[8] * Weight(BASE, 8);
  }

  /** The value lies between the top limb and its successor. */
  lemma TopLimb(x: seq<int>)
    requires |x| == 9 && Normal(x, BASE)
    ensures 0 <= x[8] * 0x1000000000000000000000000000000000000000000000000000000000000 <= Sum(x, 9, BASE)
    ensures Sum(x, 9, BASE) < (x[8] + 1) * 0x1000000000000000000000000000000000000000000000000000000000000
  {
    TopTerm(x);
    SumBound(x, 8, BASE);
    Weights();
  }

  lemma NormBound(a: array<word>)
    requires Norm(a)
    ensures 0 <= Val(a) < TWO270
  {
    SumBound(a[..], 9, BASE);
    Weights();
  }

  /** Normalized limbs are determined by the value. */
  lemma NormInjective(a: array<word>, b: array<word>)
    requires Norm(a) && Norm(b) && Val(a) == Val(b)
    ensures a[..] == b[..]
  {
    SumInjective(a[..], b[..], 9, BASE);
  }

  /** Below 2^270 nothing is lost. */
  lemma ResidueFits(v: int)
    ensures 0 <= v < TWO270 ==> v % Weight(BASE, 9) == v
  {
    Weights();
    if 0 <= v < TWO270 {
      DivModUnique(v, Weight(BASE, 9), 0, v);
    }
  }

  /** a = a + b, modulo 2^270. */
  method BnAdd(a: array<word>, b: array<word>)
    requires Norm(a) && Norm(b)
    modifies a
    ensures Norm(a) && Val(a) == (old(Val(a)) + old(Val(b))) % Weight(BASE, 9)
    ensures old(Val(a)) + old(Val(b)) < TWO270 ==> Val(a) == old(Val(a)) + old(Val(b))
  {
    hide Sum, Weight;
    var tmp: word := 0;
    ghost var a0, b0 := a[..], b[..];
    ghost var c := seq(9, i requires 0 <= i < 9 => a0[i] + b0[i]);
    CarryStart(a0, c, 0, BASE);
    var i := 0;
    while i < 9
      invariant 0 <= i <= 9 && tmp <= 1
      invariant forall m :: 0 <= m < i ==> a[m] < BASE
      invariant forall m :: i <= m < 9 ==> a[m] == a0[m] && b[m] == b0[m]
      invariant Carried(a[..], c, i, tmp, 0, BASE)
    {
      ghost var s, t := a[..], tmp;
      tmp := tmp + (a[i] + b[i]);
      a[i] := tmp % 0x4000_0000;
      tmp := tmp / 0x4000_0000;
      CarryStep(s, a[..], c, i, t, tmp, 0, BASE);
      i := i + 1;
    }
    CarryEnd(a[..], c, 9, tmp, 0, BASE);
    SumLinear(c, a0, b0, 1, 1, 9, BASE);
    SumBound(a0, 9, BASE);
    SumBound(b0, 9, BASE);
    ResidueFits(Sum(a0, 9, BASE) + Sum(b0, 9, BASE));
  }

  /** a = a + b.  Where the first sum does not fit a word, 2^32 is lost. */
  method BnAddi(a: array<word>, b: word)
    requires Norm(a)
    modifies a
    ensures Norm(a) && Val(a) == (old(Val(a)) + b - Lost(old(a[0]), b)) % Weight(BASE, 9)
    ensures old(a[0]) + b < TWO32 ==> Val(a) == (old(Val(a)) + b) % Weight(BASE, 9)
  {
    hide Sum, Weight;
    var tmp: word := b;
    ghost var a0 := a[..];
    ghost var c: seq<int> := seq(9, i requires 0 <= i < 9 => a0[i] as int - if i == 0 then Lost(a0[0], b) else 0);
    LostColumn(a0, c, b);
    CarryStart(a0, c, b, BASE);
    var i := 0;
    while i < 9
      invariant 0 <= i <= 9 && (if i == 0 then tmp == b else tmp <= 3)
      invariant forall m :: 0 <= m < i ==> a[m] < BASE
      invariant forall m :: i <= m < 9 ==> a[m] == a0[m]
      invariant Carried(a[..], c, i, tmp, b, BASE)
    {
      ghost var s, t := a[..], tmp;
      WrapOnce(tmp, a[i]);
      tmp := Wrap32(tmp as int + a[i] as int);
      assert tmp == t as int + c[i];
      a[i] := tmp % 0x4000_0000;
      tmp := tmp / 0x4000_0000;
      CarryStep(s, a[..], c, i, t, tmp, b, BASE);
      i := i + 1;
    }
    CarryEnd(a[..], c, 9, tmp, b, BASE);
  }

  ghost function Lost(x: word, y: word): (l: int)
    ensures l == 0 || l == TWO32
  {
    if x + y < TWO32 then 0 else TWO32
  }

  lemma WrapOnce(x: word, y: word)
    ensures Wrap32(x as int + y as int) == x + y - Lost(y, x)
  {
  }

  lemma LostColumn(a: seq<word>, c: seq<int>, b: word)
    requires |a| == |c| == 9 && forall i :: 0 <= i < 9 ==> c[i] == a[i] - if i == 0 then Lost(a[0], b) else 0
    ensures Sum(c, 9, BASE) == Sum(a, 9, BASE) - Lost(a[0], b)
  {
    Expand(a);
    Expand(c);
  }

  /** res = a - b, modulo 2^270 when a < b. */
  method BnSubtract(a: array<word>, b: array<word>, res: array<word>)
    requires Norm(a) && Norm(b) && res.Length == 9
    modifies res
    ensures Norm(res) && Val(res) == (old(Val(a)) - old(Val(b))) % Weight(BASE, 9)
    ensures old(Val(a)) >= old(Val(b)) ==> Val(res) == old(Val(a)) - old(Val(b))
  {
    hide Sum, Weight;
    var tmp: word := 1;
    ghost var a0, b0 := a[..], b[..];
    ghost var c: seq<int> := seq(9, i requires 0 <= i < 9 => BASE - 1 + a0[i] as int + 0 * b0[i] as int - b0[i] as int);
    CarryStart(res[..], c, 1, BASE);
    var i := 0;
    while i < 9
      invariant 0 <= i <= 9 && tmp <= 1
      invariant forall m :: 0 <= m < i ==> res[m] < BASE
      invariant forall m :: i <= m < 9 ==> a[m] == a0[m] && b[m] == b0[m]
      invariant Carried(res[..], c, i, tmp, 1, BASE)
    {
      ghost var s, t := res[..], tmp;
      tmp := tmp + (0x3FFF_FFFF + a[i] - b[i]);
      res[i] := tmp % 0x4000_0000;
      tmp := tmp / 0x4000_0000;
      CarryStep(s, res[..], c, i, t, tmp, 1, BASE);
      i := i + 1;
    }
    CarryEnd(res[..], c, 9, tmp, 1, BASE);
    SumRaised(c, a0, b0, 0, b0, 9, BASE);
    ShiftResidue(Sum(a0, 9, BASE) - Sum(b0, 9, BASE), Weight(BASE, 9));
    SumBound(a0, 9, BASE);
    SumBound(b0, 9, BASE);
    Weights();
    ResidueFits(Sum(a0, 9, BASE) - Sum(b0, 9, BASE));
  }

  lemma ShiftResidue(x: int, w: int)
    requires w > 0
    ensures (w + x) % w == x % w
  {
    DivMod(x, w);
    assert (x / w + 1) * w == (x / w) * w + w;
    DivModUnique(w + x, w, x / w + 1, x % w);
  }

  method BnIsZero(a: array<word>) returns (r: bool)
    requires Norm(a)
    ensures r <==> Val(a) == 0
  {
    var result: word := 0;
    var i := 0;
    while i < 9
      invariant 0 <= i <= 9
      invariant result == 0 <==> forall m :: 0 <= m < i ==> a[m] == 0
    {
      OrZero(result, a[i]);
      Pow2Values();
      OrBound(result, a[i], 32);
      result := Or(result, a[i]);
      i := i + 1;
    }
    SumZero(a[..], 9, BASE);
    return result == 0;
  }

  method BnIsEqual(a: array<word>, b: array<word>) returns (r: bool)
    requires Norm(a) && Norm(b)
    ensures r <==> a[..] == b[..]
    ensures r <==> Val(a) == Val(b)
  {
    var result: word := 0;
    var i := 0;
    while i < 9
      invariant 0 <= i <= 9
      invariant result == 0 <==> forall m :: 0 <= m < i ==> a[m] == b[m]
    {
      XorZero(a[i], b[i]);
      Pow2Values();
      XorBound(a[i], b[i], 32);
      var d: word := Xor(a[i], b[i]);
      OrZero(result, d);
      OrBound(result, d, 32);
      result := Or(result, d);
      i := i + 1;
    }
    if Val(a) == Val(b) {
      NormInjective(a, b);
    }
    return result == 0;
  }

  lemma PushBit(x: nat, b: nat, n: nat)
    requires b <= 1 && n <= 8 && x < Pow2(n)
    ensures Or(2 * x, b) == 2 * x + b < Pow2(n + 1) <= 512
  {
    Pow2Mono(n + 1, 9);
    assert Pow2(9) == 512;
    assert Pow2(1) == 2;
    OrDisjoint(b, 2 * x, 1);
  }

  method BnIsLess(a: array<word>, b: array<word>) returns (r: bool)
    requires Norm(a) && Norm(b)
    ensures r <==> Val(a) < Val(b)
  {
    hide Sum, Weight, Leads, Or;
    var res1: word := 0;
    var res2: word := 0;
    ghost var d, x, y := 0, a[..], b[..];
    CompareStart(x, y);
    var i := 9;
    while i > 0
      invariant 0 <= i <= 9
      invariant res1 < Pow2(9 - i) && res2 < Pow2(9 - i)
      invariant Leads(x, y, i, d)
      invariant (d < 0 <==> res1 > res2) && (d > 0 <==> res1 < res2)
    {
      i := i - 1;
      PushBit(res1, if a[i] < b[i] then 1 else 0, 8 - i);
      PushBit(res2, if a[i] > b[i] then 1 else 0, 8 - i);
      res1 := Or(2 * res1, if a[i] < b[i] then 1 else 0);
      res2 := Or(2 * res2, if a[i] > b[i] then 1 else 0);
      CompareStep(x, y, i, d);
      d := d * BASE + (a[i] as int - b[i] as int);
    }
    CompareEnd(x, y, d);
    return res1 > res2;
  }

  /** Limbs i.. of a and b differ by d, in units of limb i. */
  ghost predicate Leads(a: seq<int>, b: seq<int>, i: nat, d: int)
    requires i <= |a| == |b| == 9
  {
    Sum(a, 9, BASE) - Sum(b, 9, BASE) == Sum(a, i, BASE) - Sum(b, i, BASE) + d * Weight(BASE, i)
  }

  lemma CompareStart(a: seq<int>, b: seq<int>)
    requires |a| == |b| == 9
    ensures Leads(a, b, 9, 0)
  {
  }

  lemma CompareEnd(a: seq<int>, b: seq<int>, d: int)
    requires |a| == |b| == 9 && Leads(a, b, 0, d)
    ensures Sum(a, 9, BASE) - Sum(b, 9, BASE) == d
  {
  }

  lemma CompareStep(a: seq<int>, b: seq<int>, i: nat, d: int)
    requires i < |a| == |b| == 9 && Leads(a, b, i + 1, d)
    ensures Leads(a, b, i, d * BASE + (a[i] - b[i]))
  {
    var w := Weight(BASE, i);
    assert (d * BASE + (a[i] - b[i])) * w == d * (BASE * w) + a[i] * w - b[i] * w;
  }

  /** res = cond ? truecase : falsecase, without a branch. */
  method BnCmov(res: array<word>, cond: bool, truecase: array<word>, falsecase: array<word>)
    requires res.Length == 9 && truecase.Length == 9 && falsecase.Length == 9
    modifies res
    ensures res[..] == old(if cond then truecase[..] else falsecase[..])
    ensures Val(res) == old(if cond then Val(truecase) else Val(falsecase))
    ensures old(if cond then Norm(truecase) else Norm(falsecase)) ==> Norm(res)
  {
    hide And, Or;
    var tmask: word := if cond then 0xFFFF_FFFF else 0;
    var fmask: word := 0xFFFF_FFFF - tmask;
    var i := 0;
    while i < 9
      invariant 0 <= i <= 9
      invariant forall m :: 0 <= m < i ==> res[m] == old(if cond then truecase[m] else falsecase[m])
      invariant forall m :: i <= m < 9 ==> truecase[m] == old(truecase[m]) && falsecase[m] == old(falsecase[m])
    {
      SelectWord(truecase[i], falsecase[i]);
      res[i] := Or(And(truecase[i], tmask), And(falsecase[i], fmask));
      i := i + 1;
    }
  }

  lemma SelectWord(x: word, y: word)
    ensures Or(And(x, 0xFFFF_FFFF), And(y, 0)) == x && Or(And(x, 0), And(y, 0xFFFF_FFFF)) == y
  {
    hide Or;
    assert And(x, 0) == 0 && And(y, 0) == 0;
    Pow2Values();
    AndMask(x, 32);
    AndMask(y, 32);
    DivModUnique(x, Pow2(32), 0, x);
    DivModUnique(y, Pow2(32), 0, y);
    hide And;
    OrWithZero(x);
    OrWithZero(y);
  }

  lemma OrWithZero(x: nat)
    ensures Or(x, 0) == x == Or(0, x)
  {
  }

  /** a = 2a, modulo 2^270. */
  method BnLshift(a: array<word>)
    requires Norm(a)
    modifies a
    ensures Norm(a) && Val(a) == 2 * old(Val(a)) % Weight(BASE, 9)
    ensures 2 * old(Val(a)) < TWO270 ==> Val(a) == 2 * old(Val(a))
  {
    hide Sum, Weight;
    ghost var a0 := a[..];
    var i := 8;
    while i > 0
      invariant 0 <= i <= 8 && Norm(a)
      invariant forall m :: 0 <= m <= i ==> a[m] == a0[m]
      invariant forall m :: i < m < 9 ==> a[m] == Doubled(a0[m], a0[m - 1])
    {
      ShiftInBit(a[i], a[i - 1]);
      a[i] := Or((a[i] as int * 2) % 0x4000_0000, And(a[i - 1], 0x2000_0000) / 0x2000_0000);
      i := i - 1;
    }
    a[0] := (a[0] as int * 2) % 0x4000_0000;
    LshiftValue(a0, a[..]);
    SumBound(a0, 9, BASE);
    ResidueFits(2 * Sum(a0, 9, BASE));
  }

  ghost function Doubled(x: int, below: int): (r: int)
    ensures 0 <= x < BASE && 0 <= below < BASE ==> 0 <= r < BASE
  {
    2 * x % BASE + below / 0x2000_0000
  }

  lemma DoubledDigit(x: int)
    requires 0 <= x < BASE
    ensures x / 0x2000_0000 * BASE + 2 * x % BASE == 2 * x
  {
  }

  lemma LshiftValue(a: seq<int>, r: seq<int>)
    requires |a| == |r| == 9 && Normal(a, BASE) && Normal(r, BASE)
    requires r[0] == 2 * a[0] % BASE && forall m :: 1 <= m < 9 ==> r[m] == Doubled(a[m], a[m - 1])
    ensures Sum(r, 9, BASE) == 2 * Sum(a, 9, BASE) % Weight(BASE, 9)
  {
    hide Sum, Weight;
    var c := seq(9, i requires 0 <= i < 9 => 2 * a[i]);
    var carries := [0] + seq(9, i requires 0 <= i < 9 => a[i] / 0x2000_0000);
    assert Carried(r, c, 9, carries[9], 0, BASE) by {
      forall i | 0 <= i < 9
        ensures carries[i + 1] * BASE + r[i] == carries[i] + c[i]
      {
        DoubledDigit(a[i]);
        if i > 0 {
          assert carries[i] == a[i - 1] / 0x2000_0000;
          assert r[i] == Doubled(a[i], a[i - 1]);
        }
      }
      CarriedBy(r, c, carries, 9, BASE);
    }
    assert Sum(c, 9, BASE) == 2 * Sum(a, 9, BASE) by {
      SumLinear(c, a, a, 1, 1, 9, BASE);
    }
    hide Carried;
    CarryEnd(r, c, 9, carries[9], 0, BASE);
    assert Sum(c, 9, BASE) + 0 == 2 * Sum(a, 9, BASE);
  }

  lemma ShiftInBit(x: nat, y: nat)
    requires x < BASE && y < BASE
    ensures Or(2 * x % BASE, And(y, 0x2000_0000) / 0x2000_0000) == Doubled(x, y)
  {
    Pow2Values();
    assert Pow2(30) == 2 * Pow2(29);
    TopBit(y, 29);
    assert Pow2(1) == 2;
    OrDisjoint(y / 0x2000_0000, 2 * x % BASE, 1);
  }

  lemma {:induction false} TopBit(y: nat, n: nat)
    requires y < 2 * Pow2(n)
    ensures And(y, Pow2(n)) == if y < Pow2(n) then 0 else Pow2(n)
  {
    if n > 0 && y > 0 {
      TopBit(y / 2, n - 1);
      assert Pow2(n) / 2 == Pow2(n - 1);
      assert Pow2(n) % 2 == 0;
    }
  }

  /** a = a div 2. */
  method BnRshift(a: array<word>)
    requires Norm(a)
    modifies a
    ensures Norm(a) && Val(a) == old(Val(a)) / 2
  {
    hide Sum, Weight;
    ghost var a0 := a[..];
    var i := 0;
    while i < 8
      invariant 0 <= i <= 8 && Norm(a)
      invariant forall m :: i <= m < 9 ==> a[m] == a0[m]
      invariant forall m :: 0 <= m < i ==> a[m] == Halved(a0[m], a0[m + 1])
    {
      ShiftOutBit(a[i], a[i + 1]);
      a[i] := Or(a[i] / 2, a[i + 1] % 2 * 0x2000_0000);
      i := i + 1;
    }
    a[8] := a[8] / 2;
    RshiftValue(a0, a[..]);
  }

  ghost function Halved(x: int, above: int): (r: int)
    ensures 0 <= x < BASE ==> 0 <= r < BASE
  {
    x / 2 + above % 2 * 0x2000_0000
  }

  lemma ShiftOutBit(x: nat, y: nat)
    requires x < BASE
    ensures Or(x / 2, y % 2 * 0x2000_0000) == Halved(x, y)
  {
    Pow2Values();
    assert Pow2(30) == 2 * Pow2(29);
    OrDisjoint(x / 2, y % 2 * 0x2000_0000, 29);
  }

  lemma RshiftValue(a: seq<int>, r: seq<int>)
    requires |a| == |r| == 9 && Normal(a, BASE) && Normal(r, BASE)
    requires r[8] == a[8] / 2 && forall m :: 0 <= m < 8 ==> r[m] == Halved(a[m], a[m + 1])
    ensures Sum(r, 9, BASE) == Sum(a, 9, BASE) / 2
  {
    hide Sum, Weight;
    var c := seq(9, i requires 0 <= i < 9 => 2 * r[i]);
    var carries := seq(9, i requires 0 <= i < 9 => a[i] % 2) + [0];
    forall i | 0 <= i < 9
      ensures carries[i + 1] * BASE + a[i] == carries[i] + c[i]
    {
      assert carries[i] == a[i] % 2;
    }
    CarriedBy(a, c, carries, 9, BASE);
    SumLinear(c, r, r, 1, 1, 9, BASE);
  }
}
