/** Positional notation: the value of the first n little-endian digits of a sequence, in base b. */
module Digits {
  import opened Words

  function Weight(b: nat, n: nat): (w: nat)
    requires b > 0
    ensures w > 0
  {
    if n == 0 then 1 else
      Product(b, 1, Weight(b, n - 1));
      b * Weight(b, n - 1)
  }

  function Sum(s: seq<int>, n: nat, b: nat): int
    requires n <= |s| && b > 0
  {
    if n == 0 then 0 else Sum(s, n - 1, b) + s[n - 1] * Weight(b, n - 1)
  }

  predicate Normal(s: seq<int>, b: nat)
  {
    forall i :: 0 <= i < |s| ==> 0 <= s[i] < b
  }

  lemma {:induction false} SumSame(s: seq<int>, t: seq<int>, n: nat, b: nat)
    requires n <= |s| && n <= |t| && b > 0
    requires forall i :: 0 <= i < n ==> s[i] == t[i]
    ensures Sum(s, n, b) == Sum(t, n, b)
  {
    if n > 0 {
      SumSame(s, t, n - 1, b);
    }
  }

  lemma {:induction false} SumBound(s: seq<int>, n: nat, b: nat)
    requires n <= |s| && b > 0
    requires forall i :: 0 <= i < n ==> 0 <= s[i] < b
    ensures 0 <= Sum(s, n, b) < Weight(b, n)
  {
    if n > 0 {
      SumBound(s, n - 1, b);
      var w := Weight(b, n - 1);
      Product(w, 0, s[n - 1]);
      Product(w, s[n - 1], b - 1);
      assert (b - 1) * w + w == b * w;
    }
  }

  lemma {:induction false} SumNonNegative(s: seq<int>, n: nat, b: nat)
    requires n <= |s| && b > 0
    requires forall i :: 0 <= i < n ==> 0 <= s[i]
    ensures 0 <= Sum(s, n, b)
  {
    if n > 0 {
      SumNonNegative(s, n - 1, b);
      Product(Weight(b, n - 1), 0, s[n - 1]);
    }
  }

  lemma Factors(b: int, v: int, w: int)
    ensures (b * v) * w == b * (v * w)
  {
  }

  /** (t + d w) v, with the last factors together. */
  lemma Spread(t: int, d: int, w: int, v: int)
    ensures (t + d * w) * v == t * v + d * (w * v)
  {
    assert (d * w) * v == d * (w * v);
  }

  lemma {:induction false} WeightAdd(b: nat, m: nat, n: nat)
    requires b > 0
    ensures Weight(b, m + n) == Weight(b, m) * Weight(b, n)
  {
    if m > 0 {
      WeightAdd(b, m - 1, n);
      Factors(b, Weight(b, m - 1), Weight(b, n));
    }
  }

  /** Splitting off the digits from position m on. */
  lemma {:induction false} SumSplit(s: seq<int>, m: nat, n: nat, b: nat)
    requires m <= n <= |s| && b > 0
    ensures Sum(s, n, b) == Sum(s, m, b) + Sum(s[m..], n - m, b) * Weight(b, m)
    decreases n - m
  {
    if m < n {
      SumSplit(s, m, n - 1, b);
      WeightAdd(b, m, n - 1 - m);
      var t, w := Sum(s[m..], n - 1 - m, b), Weight(b, n - 1 - m);
      assert s[m..][n - 1 - m] == s[n - 1];
      Spread(t, s[n - 1], w, Weight(b, m));
    }
  }

  /** Digits are determined by their value. */
  lemma {:induction false} SumInjective(s: seq<int>, t: seq<int>, n: nat, b: nat)
    requires n <= |s| && n <= |t| && b > 0
    requires forall i :: 0 <= i < n ==> 0 <= s[i] < b && 0 <= t[i] < b
    requires Sum(s, n, b) == Sum(t, n, b)
    ensures s[..n] == t[..n]
  {
    if n > 0 {
      var w := Weight(b, n - 1);
      SumBound(s, n - 1, b);
      SumBound(t, n - 1, b);
      DivModUnique(Sum(s, n, b), w, s[n - 1], Sum(s, n - 1, b));
      DivModUnique(Sum(t, n, b), w, t[n - 1], Sum(t, n - 1, b));
      SumInjective(s, t, n - 1, b);
      assert s[..n] == s[..n - 1] + [s[n - 1]];
      assert t[..n] == t[..n - 1] + [t[n - 1]];
    }
  }

  /** Carry propagation: the first n columns of c, plus a start value, are written as n digits and a carry. */
  ghost predicate Carried(out: seq<int>, c: seq<int>, n: nat, carry: int, start: int, b: nat)
  {
    b > 0 && n <= |out| && n <= |c| && Sum(out, n, b) + carry * Weight(b, n) == Sum(c, n, b) + start
  }

  /** One round of the loop `t += c[n]; out[n] = t mod b; t = t div b`. */
  lemma CarryStep(out: seq<int>, out': seq<int>, c: seq<int>, n: nat, t: int, t': int, start: int, b: nat)
    requires Carried(out, c, n, t, start, b) && n < |c| && n < |out| == |out'|
    requires forall i :: 0 <= i < n ==> out'[i] == out[i]
    requires t' * b + out'[n] == t + c[n]
    ensures Carried(out', c, n + 1, t', start, b)
  {
    SumSame(out, out', n, b);
    var w := Weight(b, n);
    calc {
      Sum(out', n + 1, b) + t' * Weight(b, n + 1);
      Sum(out, n, b) + out'[n] * w + t' * (b * w);
      { assert t' * (b * w) == (t' * b) * w; }
      Sum(out, n, b) + out'[n] * w + (t' * b) * w;
      { assert (t' * b + out'[n]) * w == (t' * b) * w + out'[n] * w; }
      Sum(out, n, b) + (t + c[n]) * w;
      { assert (t + c[n]) * w == t * w + c[n] * w; }
      Sum(out, n, b) + t * w + c[n] * w;
      Sum(c, n + 1, b) + start;
    }
  }

  lemma CarryStart(out: seq<int>, c: seq<int>, start: int, b: nat)
    requires b > 0
    ensures Carried(out, c, 0, start, start, b)
  {
  }

  lemma CarrySame(out: seq<int>, out': seq<int>, c: seq<int>, n: nat, carry: int, start: int, b: nat)
    requires Carried(out, c, n, carry, start, b) && n <= |out'| && forall i :: 0 <= i < n ==> out'[i] == out[i]
    ensures Carried(out', c, n, carry, start, b)
  {
    SumSame(out, out', n, b);
  }

  /** What carry propagation leaves behind: remainder and quotient of the column sum. */
  lemma CarryEnd(out: seq<int>, c: seq<int>, n: nat, carry: int, start: int, b: nat)
    requires Carried(out, c, n, carry, start, b)
    requires forall i :: 0 <= i < n ==> 0 <= out[i] < b
    ensures Sum(out, n, b) == (Sum(c, n, b) + start) % Weight(b, n)
    ensures carry == (Sum(c, n, b) + start) / Weight(b, n)
  {
    SumBound(out, n, b);
    DivModUnique(Sum(c, n, b) + start, Weight(b, n), carry, Sum(out, n, b));
  }

  lemma {:induction false} SumLinear(c: seq<int>, x: seq<int>, y: seq<int>, k: int, l: int, n: nat, b: nat)
    requires n <= |c| && n <= |x| && n <= |y| && b > 0
    requires forall i :: 0 <= i < n ==> c[i] == k * x[i] + l * y[i]
    ensures Sum(c, n, b) == k * Sum(x, n, b) + l * Sum(y, n, b)
  {
    if n > 0 {
      SumLinear(c, x, y, k, l, n - 1, b);
      var w := Weight(b, n - 1);
      calc {
        c[n - 1] * w;
        (k * x[n - 1] + l * y[n - 1]) * w;
        k * (x[n - 1] * w) + l * (y[n - 1] * w);
      }
      assert k * Sum(x, n, b) == k * Sum(x, n - 1, b) + k * (x[n - 1] * w);
      assert l * Sum(y, n, b) == l * Sum(y, n - 1, b) + l * (y[n - 1] * w);
    }
  }

  /** Columns of x + k * y - z, each raised by b - 1 so that none is negative: with a start value of 1
      the raise amounts to the weight after the last column. */
  lemma {:induction false} SumRaised(c: seq<int>, x: seq<int>, y: seq<int>, k: int, z: seq<int>, n: nat, b: nat)
    requires n <= |c| && n <= |x| && n <= |y| && n <= |z| && b > 0
    requires forall i :: 0 <= i < n ==> c[i] == b - 1 + x[i] + k * y[i] - z[i]
    ensures Sum(c, n, b) + 1 == Sum(x, n, b) + k * Sum(y, n, b) - Sum(z, n, b) + Weight(b, n)
  {
    if n > 0 {
      SumRaised(c, x, y, k, z, n - 1, b);
      var w := Weight(b, n - 1);
      calc {
        c[n - 1] * w;
        (b - 1 + x[n - 1] + k * y[n - 1] - z[n - 1]) * w;
        b * w - w + x[n - 1] * w + k * (y[n - 1] * w) - z[n - 1] * w;
      }
      assert k * Sum(y, n, b) == k * Sum(y, n - 1, b) + k * (y[n - 1] * w);
    }
  }

  lemma {:induction false} SumZero(s: seq<int>, n: nat, b: nat)
    requires n <= |s| && b > 0
    requires forall i :: 0 <= i < n ==> 0 <= s[i]
    ensures Sum(s, n, b) == 0 <==> forall i :: 0 <= i < n ==> s[i] == 0
  {
    if n > 0 {
      SumZero(s, n - 1, b);
      SumNonNegative(s, n - 1, b);
      if s[n - 1] > 0 {
        Product(Weight(b, n - 1), 1, s[n - 1]);
      }
    }
  }

  /** The carries need not be computed one after the other. */
  lemma {:induction false} CarriedBy(out: seq<int>, c: seq<int>, carries: seq<int>, n: nat, b: nat)
    requires n <= |out| && n <= |c| && n < |carries| && b > 0
    requires forall i :: 0 <= i < n ==> carries[i + 1] * b + out[i] == carries[i] + c[i]
    ensures Carried(out, c, n, carries[n], carries[0], b)
  {
    if n == 0 {
      CarryStart(out, c, carries[0], b);
    } else {
      CarriedBy(out, c, carries, n - 1, b);
      CarryStep(out, out, c, n - 1, carries[n - 1], carries[n], carries[0], b);
    }
  }

  lemma {:induction false} WeightMono(b: nat, m: nat, n: nat)
    requires b > 0 && m <= n
    ensures Weight(b, m) <= Weight(b, n)
    decreases n
  {
    if m < n {
      WeightMono(b, m, n - 1);
      Product(Weight(b, n - 1), 1, b);
    }
  }

  /** In an even base the lowest digit decides the parity. */
  lemma {:induction false} SumParity(s: seq<int>, n: nat, b: nat)
    requires 1 <= n <= |s| && b > 0 && b % 2 == 0
    ensures Sum(s, n, b) % 2 == s[0] % 2
  {
    if n == 1 {
      assert Sum(s, 1, b) == Sum(s, 0, b) + s[0] * Weight(b, 0);
    } else {
      SumParity(s, n - 1, b);
      EvenTerm(s[n - 1], b / 2, Weight(b, n - 2), Sum(s, n - 1, b));
    }
  }

  lemma EvenTerm(x: int, c: int, v: int, rest: int)
    ensures (rest + x * (2 * c * v)) % 2 == rest % 2
  {
    assert x * (2 * c * v) == 2 * (x * (c * v));
  }

  /** Zeros on top do not change the value. */
  lemma {:induction false} SumTail(s: seq<int>, m: nat, n: nat, b: nat)
    requires m <= n <= |s| && b > 0 && forall i :: m <= i < n ==> s[i] == 0
    ensures Sum(s, n, b) == Sum(s, m, b)
    decreases n
  {
    if m < n {
      SumTail(s, m, n - 1, b);
    }
  }

  /** Digit i is what dividing by the weights before it leaves, modulo the base. */
  lemma DigitAt(s: seq<int>, i: nat, n: nat, b: nat)
    requires i < n <= |s| && b > 0 && forall j :: 0 <= j < n ==> 0 <= s[j] < b
    ensures s[i] == Sum(s, n, b) / Weight(b, i) % b
  {
    hide Sum, Weight;
    SumSplit(s, i, n, b);
    SumBound(s, i, b);
    DivModUnique(Sum(s, n, b), Weight(b, i), Sum(s[i..], n - i, b), Sum(s, i, b));
    LowestDigit(s[i..], n - i, b);
  }

  lemma LowestDigit(t: seq<int>, n: nat, b: nat)
    requires 0 < n <= |t| && b > 0 && 0 <= t[0] < b
    ensures Sum(t, n, b) % b == t[0]
  {
    hide Sum, Weight;
    SumSplit(t, 1, n, b);
    OneDigit(t, b);
    DivModUnique(Sum(t, n, b), b, Sum(t[1..], n - 1, b), t[0]);
  }

  lemma OneDigit(t: seq<int>, b: nat)
    requires |t| > 0 && b > 0
    ensures Sum(t, 1, b) == t[0] && Weight(b, 1) == b
  {
    assert Sum(t, 1, b) == Sum(t, 0, b) + t[0] * Weight(b, 0);
    assert Weight(b, 1) == b * Weight(b, 0);
  }

  /** Conversely, the digits of v make up v, as far as they go. */
  lemma {:induction false} SumOfDigits(s: seq<int>, v: int, n: nat, b: nat)
    requires n <= |s| && b > 0 && forall i :: 0 <= i < n ==> s[i] == v / Weight(b, i) % b
    ensures Sum(s, n, b) == v % Weight(b, n)
  {
    if n == 0 {
      DivModUnique(v, 1, v, 0);
    } else {
      SumOfDigits(s, v, n - 1, b);
      NextRemainder(v, Weight(b, n - 1), b);
    }
  }

  lemma NextRemainder(v: int, w: nat, b: nat)
    requires w > 0 && b > 0
    ensures b * w > 0 && v % (b * w) == v % w + v / w % b * w
  {
    var q := v / w;
    var e, d := q / b, q % b;
    DivMod(v, w);
    DivMod(q, b);
    Product(w, 0, d);
    Product(w, d, b - 1);
    Product(w, 1, b);
    assert (b - 1) * w == b * w - w;
    assert (e * b + d) * w == e * (b * w) + d * w;
    DivModUnique(v, b * w, e, v % w + d * w);
  }
}
