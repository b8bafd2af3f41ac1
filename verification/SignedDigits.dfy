/** The signed odd-digit form of a scalar used by both multiplication loops of ecdsa.c. */
module SignedDigits {
  import opened Words
  import opened Digits
  import opened BignumBasics

  lemma DivDiv(a: nat, b: nat, c: nat)
    requires b > 0 && c > 0
    ensures b * c > 0 && a / b / c == a / (b * c)
  {
    Product(b, 1, c);
    DivMod(a, b);
    DivMod(a / b, c);
    var q, r, s := a / b / c, a / b % c, a % b;
    assert (q * c + r) * b == q * (b * c) + r * b;
    Product(b, 0, r);
    Product(b, r, c - 1);
    assert (c - 1) * b == b * c - b;
    DivModUnique(a, b * c, q, r * b + s);
  }

  /** a >> 4 i. */
  ghost function Top(a: nat, i: nat): (t: nat)
  {
    QuotientBound(a, Weight(16, i));
    a / Weight(16, i)
  }

  lemma TopStep(a: nat, i: nat)
    ensures Top(a, i + 1) == Top(a, i) / 16
  {
    DivDiv(a, Weight(16, i), 16);
    assert Weight(16, i) * 16 == Weight(16, i + 1);
  }

  /** x | 1. */
  ghost function Oddly(x: nat): (r: nat)
    ensures r % 2 == 1 && x <= r <= x + 1
  {
    x / 2 * 2 + 1
  }

  lemma OddResidue(x: nat)
    requires x % 2 == 1
    ensures 0 < x % 32 < 32 && x % 32 % 2 == 1
  {
    DivMod(x, 32);
  }

  /** Digit i: bit 4 of the five-bit window at position 4 i is the sign, the others the size. */
  ghost function Digit(a: nat, i: nat): (d: int)
    ensures -15 <= d <= 15 && d % 2 == 1
  {
    OddResidue(Oddly(Top(a, i)));
    Oddly(Top(a, i)) % 32 - 16
  }

  /** The window of t and what lies above it. */
  lemma OddlySplit(t: nat, q: nat, r: nat)
    requires t == 32 * q + r && r < 32
    ensures Oddly(t) == 32 * q + Oddly(r) && Oddly(t) % 32 == Oddly(r) && Oddly(t / 16) == 2 * q + 1
    ensures t % 2 == r % 2 && t % 32 == r
  {
    var b := if r >= 16 then 1 else 0;
    DivModUnique(t, 2, 16 * q + r / 2, r % 2);
    DivModUnique(t, 32, q, r);
    DivModUnique(Oddly(t), 32, q, Oddly(r));
    DivModUnique(t, 16, 2 * q + b, r - 16 * b);
    DivModUnique(2 * q + b, 2, q, b);
  }

  lemma DigitStep(a: nat, i: nat)
    ensures Oddly(Top(a, i)) == 16 * Oddly(Top(a, i + 1)) + Digit(a, i)
  {
    TopStep(a, i);
    var t := Top(a, i);
    assert Digit(a, i) == Oddly(t) % 32 - 16;
    hide Top, Oddly, Digit;
    DivMod(t, 32);
    OddlySplit(t, t / 32, t % 32);
  }

  // ----- most significant digit first

  /** Digits i..63, by Horner's rule. */
  ghost function Leading(a: nat, i: nat): int
    decreases 64 - i
  {
    if i >= 64 then 0 else 16 * Leading(a, i + 1) + Digit(a, i)
  }

  lemma TopEnd(a: nat)
    requires a < 2 * Weight(16, 64)
    ensures Oddly(Top(a, 64)) == 1
  {
    DivMod(a, Weight(16, 64));
    if a / Weight(16, 64) >= 2 {
      Product(Weight(16, 64), 2, a / Weight(16, 64));
      assert false;
    }
  }

  /** The leading digits are the leading part of a, less the power of 16 that stands for the digit 1 in front. */
  lemma {:induction false} LeadingValue(a: nat, i: nat)
    requires a < 2 * Weight(16, 64) && i <= 64
    ensures Leading(a, i) == Oddly(Top(a, i)) - Weight(16, 64 - i)
    decreases 64 - i
  {
    if i == 64 {
      TopEnd(a);
    } else {
      assert Weight(16, 64 - i) == 16 * Weight(16, 64 - (i + 1));
      hide Weight, Top, Oddly, Digit;
      LeadingValue(a, i + 1);
      DigitStep(a, i);
    }
  }

  lemma {:induction false} TopBound(a: nat, i: nat)
    requires a < 2 * Weight(16, 64) && i <= 64
    ensures Top(a, i) < 2 * Weight(16, 64 - i)
  {
    if i == 0 {
      assert Weight(16, 0) == 1;
    } else {
      TopBound(a, i - 1);
      TopStep(a, i - 1);
      assert Weight(16, 64 - (i - 1)) == 16 * Weight(16, 64 - i);
    }
  }

  lemma WeightEven(i: nat)
    requires i > 0
    ensures Weight(16, i) % 2 == 0
  {
    assert Weight(16, i) == 2 * (8 * Weight(16, i - 1));
  }

  /** What the loop has accumulated before digit i is odd and small. */
  lemma LeadingSmall(a: nat, i: nat)
    requires a < 2 * Weight(16, 64) && i < 64
    ensures 0 - Weight(16, 64 - i) < Leading(a, i) < Weight(16, 64 - i) && Leading(a, i) % 2 == 1
  {
    hide Weight, Top, Leading, Oddly;
    LeadingValue(a, i);
    TopBound(a, i);
    WeightEven(64 - i);
  }

  // ----- least significant digit first

  ghost function Signed(a: nat): (s: seq<int>)
    ensures |s| == 64 && forall i :: 0 <= i < 64 ==> s[i] == Digit(a, i)
  {
    seq(64, i requires 0 <= i < 64 => Digit(a, i))
  }

  lemma {:induction false} TrailingValue(a: nat, i: nat)
    requires a % 2 == 1 && i <= 64
    ensures Sum(Signed(a), i, 16) == a - Oddly(Top(a, i)) * Weight(16, i)
  {
    if i == 0 {
      assert Weight(16, 0) == 1;
    } else {
      TrailingValue(a, i - 1);
      DigitStep(a, i - 1);
      var w, x, d := Weight(16, i - 1), Oddly(Top(a, i)), Digit(a, i - 1);
      assert Sum(Signed(a), i, 16) == Sum(Signed(a), i - 1, 16) + d * w && Weight(16, i) == 16 * w;
      hide Weight, Sum, Top, Oddly, Digit, Signed;
      SplitDigit(x, d, w);
    }
  }

  lemma SplitDigit(x: int, d: int, w: int)
    ensures (16 * x + d) * w == x * (16 * w) + d * w
  {
  }

  lemma EvenProduct(d: int, w: int)
    requires w % 2 == 0
    ensures d * w % 2 == 0
  {
    assert d * w == 2 * (d * (w / 2));
  }

  lemma OddSum(s: int, d: int, w: int)
    requires if s % 2 == 0 then d % 2 == 1 && w == 1 else w % 2 == 0
    ensures (s + d * w) % 2 == 1
  {
    if s % 2 == 1 {
      EvenProduct(d, w);
    } else {
      assert d * w == d;
    }
    OddTotal(s, d * w);
  }

  lemma OddTotal(s: int, x: int)
    requires s % 2 + x % 2 == 1
    ensures (s + x) % 2 == 1
  {
  }

  lemma {:induction false} TrailingOdd(a: nat, i: nat)
    requires 0 < i <= 64
    ensures Sum(Signed(a), i, 16) % 2 == 1
  {
    var s, d, w := Sum(Signed(a), i - 1, 16), Digit(a, i - 1), Weight(16, i - 1);
    assert Sum(Signed(a), i, 16) == s + d * w;
    assert i == 1 ==> s == 0 && w == 1;
    hide Weight, Sum, Digit, Signed;
    if i > 1 {
      TrailingOdd(a, i - 1);
      WeightEven(i - 1);
    }
    OddSum(s, d, w);
  }

  lemma {:induction false} TrailingSmall(a: nat, i: nat)
    requires i <= 64
    ensures 0 - Weight(16, i) < Sum(Signed(a), i, 16) < Weight(16, i)
  {
    if i > 0 {
      var s, d, w := Sum(Signed(a), i - 1, 16), Digit(a, i - 1), Weight(16, i - 1);
      assert Sum(Signed(a), i, 16) == s + d * w && Weight(16, i) == 16 * w;
      TrailingSmall(a, i - 1);
      hide Weight, Sum, Digit, Signed;
      AppendDigit(s, d, w);
    }
  }

  lemma AppendDigit(s: int, d: int, w: int)
    requires -w < s < w && -15 <= d <= 15
    ensures -16 * w < s + d * w < 16 * w
  {
    Product(w, d, 15);
    Product(w, -15, d);
  }

  // ----- the recoded scalar

  lemma Weight16()
    ensures Weight(16, 63) * 16 == Weight(16, 64) == TWO256
  {
    assert Weight(16, 8) == 0x1_0000_0000;
    assert Weight(16, 64) == 16 * Weight(16, 63);
    hide Weight;
    WeightAdd(16, 8, 8);
    assert Weight(16, 16) == 0x1_0000_0000_0000_0000;
    WeightAdd(16, 16, 16);
    assert Weight(16, 32) == 0x1_0000_0000_0000_0000_0000_0000_0000_0000;
    WeightAdd(16, 32, 32);
  }

  /** The odd number whose digits are used for k. */
  ghost function Recoded(k: nat, n: nat): (a: nat)
    requires k < n < TWO256 && n % 2 == 1
    ensures 0 < a < 2 * TWO256 && a % 2 == 1 && a < TWO256 + n
  {
    k + TWO256 - if k % 2 == 0 then n else 0
  }

  /** The signed digits add up to k, or to k - n, in either order of summation. */
  lemma RecodedValue(k: nat, n: nat)
    requires k < n < TWO256 && n % 2 == 1
    ensures var a := Recoded(k, n);
      Leading(a, 0) == Sum(Signed(a), 64, 16) == if k % 2 == 0 then k - n else k
  {
    var a := Recoded(k, n);
    Weight16();
    assert Weight(16, 0) == 1;
    assert Top(a, 0) == a by {
      DivModUnique(a, 1, a, 0);
    }
    assert Oddly(a) == a;
    hide Weight, Sum, Top, Oddly, Leading, Signed;
    LeadingValue(a, 0);
    TrailingValue(a, 64);
    TopEnd(a);
    assert 1 * Weight(16, 64) == Weight(16, 64);
  }

  /** No partial sum is a multiple of n, so no intermediate point is infinity. */
  lemma NotMultiple(s: int, n: int)
    requires n > 0 && -n < s < n && s != 0
    ensures s % n != 0
  {
    if s % n == 0 {
      DivMod(s, n);
      if s / n >= 1 {
        Product(n, 1, s / n);
      } else if s / n <= -1 {
        Product(n, s / n, -1);
      }
      assert false;
    }
  }

  lemma LeadingBelowOrder(k: nat, n: nat, i: nat)
    requires 0 < k < n < TWO256 && n % 2 == 1 && TWO256 < 16 * n && i < 64
    ensures 0 - n < Leading(Recoded(k, n), i) < n && Leading(Recoded(k, n), i) != 0
  {
    var a := Recoded(k, n);
    hide Weight, Leading, Recoded;
    Weight16();
    LeadingSmall(a, i);
    if i == 0 {
      RecodedValue(k, n);
    } else {
      WeightMono(16, 64 - i, 63);
    }
  }

  lemma LeadingNotMultiple(k: nat, n: nat, i: nat)
    requires 0 < k < n < TWO256 && n % 2 == 1 && TWO256 < 16 * n && i < 64
    ensures Leading(Recoded(k, n), i) % n != 0
  {
    LeadingBelowOrder(k, n, i);
    hide Leading, Recoded;
    NotMultiple(Leading(Recoded(k, n), i), n);
  }

  lemma TrailingNotMultiple(k: nat, n: nat, i: nat)
    requires 0 < k < n < TWO256 && n % 2 == 1 && TWO256 < 16 * n && 0 < i <= 64
    ensures Sum(Signed(Recoded(k, n)), i, 16) % n != 0
  {
    var a := Recoded(k, n);
    hide Weight, Sum, Signed, Recoded;
    Weight16();
    TrailingSmall(a, i);
    TrailingOdd(a, i);
    if i == 64 {
      RecodedValue(k, n);
    } else {
      WeightMono(16, i, 63);
    }
    NotMultiple(Sum(Signed(a), i, 16), n);
  }
}
