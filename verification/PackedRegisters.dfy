/** The combo registers of the fast bn_inverse: two numbers side by side in nine words, the first in little-endian
    word order from the left, the second in big-endian order up to the right end. */
module PackedRegisters {
  import opened Words
  import opened Digits
  import opened BignumConvert

  const D: nat := 0x1_0000_0000

  ghost function Rev(s: seq<int>): (r: seq<int>)
    ensures |r| == |s| && forall i :: 0 <= i < |s| ==> r[i] == s[|s| - 1 - i]
  {
    seq(|s|, i requires 0 <= i < |s| => s[|s| - 1 - i])
  }

  /** The number in the first l words. */
  ghost function Low(s: seq<int>, l: int): int
    requires 0 <= l <= 9 == |s|
  {
    Sum(s, l, D)
  }

  /** The number in the other words. */
  ghost function High(s: seq<int>, l: int): int
    requires 0 <= l <= 9 == |s|
  {
    Sum(Rev(s), 9 - l, D)
  }

  // ----- moving the boundary and whole words

  /** A zero word at the boundary may be counted to either side. */
  lemma MoveBoundary(s: seq<int>, l: nat)
    requires 1 <= l <= 9 == |s| && s[l - 1] == 0
    ensures Low(s, l - 1) == Low(s, l) && High(s, l - 1) == High(s, l)
  {
    assert Rev(s)[9 - l] == s[l - 1];
  }

  /** Inserting a zero digit at the bottom multiplies by the base. */
  lemma {:induction false} ShiftUp(s: seq<int>, t: seq<int>, n: nat)
    requires n <= |s| && n < |t| && t[0] == 0 && forall i :: 0 <= i < n ==> t[i + 1] == s[i]
    ensures Sum(t, n + 1, D) == D * Sum(s, n, D)
  {
    if n == 0 {
      assert Sum(t, 1, D) == t[0] * Weight(D, 0);
    } else {
      ShiftUp(s, t, n - 1);
      var w := Weight(D, n - 1);
      assert t[n] * (D * w) == D * (s[n - 1] * w);
    }
  }

  lemma ShiftWords(s: seq<int>, t: seq<int>, l: nat)
    requires |s| == |t| == 9 && 1 <= l <= 9 && s[0] == 0 && t[8] == 0
    requires forall i :: 0 <= i < 8 ==> t[i] == s[i + 1]
    ensures Low(s, l) == D * Low(t, l - 1) && High(t, l - 1) == D * High(s, l)
  {
    ShiftUp(t, s, l - 1);
    forall i | 0 <= i < 9 - l
      ensures Rev(t)[i + 1] == Rev(s)[i]
    {
      assert Rev(t)[i + 1] == t[7 - i] && Rev(s)[i] == s[8 - i];
    }
    ShiftUp(Rev(s), Rev(t), 9 - l);
  }

  // ----- shifting by bits

  /** Word m of the lower number after a right shift by j bits; `above` is its neighbour of more weight. */
  function RightShifted(x: word, above: word, j: nat): (r: word)
    requires 0 < j < 32
    ensures r * Pow2(j) == x - x % Pow2(j) + above % Pow2(j) * D
    ensures r % 2 == x / Pow2(j) % 2
    ensures above / Pow2(j) == 0 && above != 0 ==> r != 0
  {
    RightShiftWord(x, above, j);
    Or(Shr(x, j), Shl32(above, 32 - j))
  }

  lemma RightShiftWord(x: word, above: word, j: nat)
    requires 0 < j < 32
    ensures var r := Or(Shr(x, j), Shl32(above, 32 - j));
      && r < D && r == x / Pow2(j) + above % Pow2(j) * Pow2(32 - j)
      && r * Pow2(j) == x - x % Pow2(j) + above % Pow2(j) * D
      && r % 2 == x / Pow2(j) % 2
      && (above / Pow2(j) == 0 && above != 0 ==> r != 0)
  {
    Pow2Values();
    assert Pow2(32 - j) == 2 * Pow2(31 - j);
    hide Pow2, Or;
    var q, e := Pow2(j), Pow2(32 - j);
    Pow2Add(j, 32 - j);
    assert q * e == D && e * q == D;
    Pow2Mono(32 - j, 32);
    QuotientBelow(x, q, e);
    WrapMultiple(above, e, q);
    WrapShift(above, e, q);
    OrDisjoint(Shr(x, j), Shl32(above, 32 - j), 32 - j);
    OrBound(Shr(x, j), Shl32(above, 32 - j), 32);
    RightShiftArithmetic(x, above, q, e);
    EvenProduct(x / q, above % q, Pow2(31 - j));
  }

  lemma RightShiftArithmetic(x: nat, above: nat, q: nat, e: nat)
    requires q > 0 && e > 0 && q * e == D && e * q == D
    ensures (x / q + above % q * e) * q == x - x % q + above % q * D
    ensures above / q == 0 && above != 0 ==> x / q + above % q * e > 0
  {
    DivMod(x, q);
    DivMod(above, q);
    QuotientBound(x, q);
    Distribute(x / q, above % q, e, q);
    if above / q == 0 && above != 0 {
      Product(e, 1, above % q);
    }
  }

  lemma EvenProduct(x: int, y: int, h: int)
    ensures (x + y * (2 * h)) % 2 == x % 2
  {
    assert y * (2 * h) == 2 * (y * h);
  }

  /** A word of the upper number after a left shift by j bits; `below` is its neighbour of less weight. */
  function LeftShifted(x: word, below: word, j: nat): (r: word)
    requires 0 < j < 32
    ensures x / Pow2(32 - j) * D + r == below / Pow2(32 - j) + Pow2(j) * x
  {
    LeftShiftWord(x, below, j);
    Or(Shl32(x, j), Shr(below, 32 - j))
  }

  lemma LeftShiftWord(x: word, below: word, j: nat)
    requires 0 < j < 32
    ensures var r := Or(Shl32(x, j), Shr(below, 32 - j));
      r < D && x / Pow2(32 - j) * D + r == below / Pow2(32 - j) + Pow2(j) * x
  {
    Pow2Values();
    hide Pow2, Or;
    var q, e := Pow2(j), Pow2(32 - j);
    Pow2Add(j, 32 - j);
    assert q * e == D && e * q == D;
    Pow2Mono(j, 32);
    QuotientBelow(below, e, q);
    WrapMultiple(x, q, e);
    WrapShift(x, q, e);
    OrDisjoint(Shr(below, 32 - j), Shl32(x, j), j);
    OrBound(Shr(below, 32 - j), Shl32(x, j), 32);
    DivMod(x, e);
    Distribute(x % e, x / e, e, q);
    assert x / e * (e * q) == x / e * D;
  }

  /** The lower number after shifting all of its words right. */
  lemma RightShiftValue(s: seq<word>, r: seq<int>, l: nat, j: nat)
    requires |s| == |r| == 9 && 1 <= l <= 9 && 0 < j < 32 && s[0] % Pow2(j) == 0
    requires forall m :: 0 <= m < l - 1 ==> r[m] == RightShifted(s[m], s[m + 1], j)
    requires r[l - 1] == s[l - 1] / Pow2(j)
    ensures Low(s, l) == Low(r, l) * Pow2(j)
  {
    hide Sum, Weight, Pow2;
    RightShiftCarried(s, r, l, j);
    CarriedZero(s, Scaled(Pow2(j), r), l);
    hide Carried;
    SumLinear(Scaled(Pow2(j), r), r, r, Pow2(j), 0, l, D);
  }

  lemma RightShiftCarried(s: seq<word>, r: seq<int>, l: nat, j: nat)
    requires |s| == |r| == 9 && 1 <= l <= 9 && 0 < j < 32 && s[0] % Pow2(j) == 0
    requires forall m :: 0 <= m < l - 1 ==> r[m] == RightShifted(s[m], s[m + 1], j)
    requires r[l - 1] == s[l - 1] / Pow2(j)
    ensures Carried(s, Scaled(Pow2(j), r), l, 0, 0, D)
  {
    hide Sum, Weight, Pow2, RightShifted, Carried;
    var q := Pow2(j);
    var c := Scaled(q, r);
    var carries := seq(l, m requires 0 <= m < l => s[m] % q) + [0];
    assert carries[l] == 0 && carries[0] == 0;
    forall m | 0 <= m < l
      ensures carries[m + 1] * D + s[m] == carries[m] + c[m]
    {
      if m < l - 1 {
        assert c[m] == r[m] * q;
      } else {
        DivMod(s[m], q);
      }
    }
    CarriedBy(s, c, carries, l, D);
  }

  lemma CarriedZero(s: seq<int>, c: seq<int>, n: nat)
    requires Carried(s, c, n, 0, 0, D)
    ensures Sum(s, n, D) == Sum(c, n, D)
  {
  }

  /** The upper number after shifting all of its words left, when it has room. */
  lemma LeftShiftValue(s: seq<word>, r: seq<word>, l: nat, j: nat)
    requires |s| == |r| == 9 && 1 <= l <= 8 && 0 < j < 32
    requires forall m :: l <= m < 8 ==> r[m] == LeftShifted(s[m], s[m + 1], j)
    requires r[8] == Shl32(s[8], j)
    requires High(s, l) * Pow2(j) < Weight(D, 9 - l)
    ensures High(r, l) == High(s, l) * Pow2(j)
  {
    hide Sum, Weight, Pow2, Carried;
    var q, b, n := Pow2(j), Rev(s), 9 - l;
    var carry := LeftShiftCarried(s, r, l, j);
    assert Sum(Scaled(q, b), n, D) == q * Sum(b, n, D) by {
      SumLinear(Scaled(q, b), b, b, q, 0, n, D);
    }
    NoCarryOut(Rev(r), Scaled(q, b), n, carry);
  }

  ghost function Scaled(q: int, s: seq<int>): (r: seq<int>)
    ensures |r| == |s| && forall i :: 0 <= i < |s| ==> r[i] == q * s[i]
  {
    seq(|s|, i requires 0 <= i < |s| => q * s[i])
  }

  lemma LeftShiftCarried(s: seq<word>, r: seq<word>, l: nat, j: nat) returns (carry: int)
    requires |s| == |r| == 9 && 1 <= l <= 8 && 0 < j < 32
    requires forall m :: l <= m < 8 ==> r[m] == LeftShifted(s[m], s[m + 1], j)
    requires r[8] == Shl32(s[8], j)
    ensures carry >= 0 && Carried(Rev(r), Scaled(Pow2(j), Rev(s)), 9 - l, carry, 0, D)
  {
    hide Sum, Weight, Pow2, LeftShifted, Shl32, Carried;
    var b, out, n := Rev(s), Rev(r), 9 - l;
    var c := Scaled(Pow2(j), b);
    var carries := [0] + seq(9, m requires 0 <= m < 9 => b[m] / Pow2(32 - j));
    forall m | 0 <= m < n
      ensures carries[m + 1] * D + out[m] == carries[m] + c[m]
    {
      LeftColumn(s, r, l, j, m);
      if m > 0 {
        assert carries[m] == s[9 - m] / Pow2(32 - j);
      }
    }
    CarriedBy(out, c, carries, n, D);
    carry := carries[n];
    DivMod(b[n - 1], Pow2(32 - j));
    QuotientBound(b[n - 1], Pow2(32 - j));
  }

  lemma LeftColumn(s: seq<word>, r: seq<word>, l: nat, j: nat, m: nat)
    requires |s| == |r| == 9 && m < 9 - l && 1 <= l <= 8 && 0 < j < 32
    requires forall m :: l <= m < 8 ==> r[m] == LeftShifted(s[m], s[m + 1], j)
    requires r[8] == Shl32(s[8], j)
    ensures s[8 - m] / Pow2(32 - j) * D + r[8 - m] == (if m > 0 then s[9 - m] / Pow2(32 - j) else 0)
        + Pow2(j) * s[8 - m]
  {
    hide Pow2, LeftShifted, Shl32;
    if m > 0 {
      assert r[8 - m] == LeftShifted(s[8 - m], s[9 - m], j);
    } else {
      LeftShiftLast(s[8], j);
    }
  }

  lemma LeftShiftLast(x: word, j: nat)
    requires 0 < j < 32
    ensures x / Pow2(32 - j) * D + Shl32(x, j) == Pow2(j) * x
  {
    Pow2Values();
    hide Pow2;
    var q, e := Pow2(j), Pow2(32 - j);
    Pow2Add(j, 32 - j);
    WrapShift(x, q, e);
    DivMod(x, e);
    Distribute(x % e, x / e, e, q);
    assert x / e * (e * q) == x / e * D;
  }

  /** Nothing is carried out of a sum that fits. */
  lemma NoCarryOut(out: seq<int>, c: seq<int>, n: nat, carry: int)
    requires Carried(out, c, n, carry, 0, D) && carry >= 0
    requires forall i :: 0 <= i < n ==> 0 <= out[i] < D
    requires Sum(c, n, D) < Weight(D, n)
    ensures Sum(out, n, D) == Sum(c, n, D) && carry == 0
  {
    SumBound(out, n, D);
    if carry > 0 {
      Product(Weight(D, n), 1, carry);
      assert false;
    }
  }

  // ----- capacity

  /** A number with a nonzero top word is at least the weight of that word. */
  lemma TopWord(s: seq<int>, l: nat)
    requires |s| == 9 && 1 <= l <= 9 && Normal(s, D) && s[l - 1] != 0
    ensures Low(s, l) >= Weight(D, l - 1)
  {
    SumBound(s, l - 1, D);
    Product(Weight(D, l - 1), 1, s[l - 1]);
  }

  /** If the product of the two numbers fits eight words, the second number fits beside the first. */
  lemma HasRoom(w: int, t: int, l: nat)
    requires 1 <= l <= 8 && w >= Weight(D, l - 1) && t >= 0 && w * t < Weight(D, 8)
    ensures t < Weight(D, 9 - l)
  {
    WeightAdd(D, l - 1, 9 - l);
    hide Weight;
    if t >= Weight(D, 9 - l) {
      Product(t, Weight(D, l - 1), w);
      Product(Weight(D, l - 1), Weight(D, 9 - l), t);
      assert false;
    }
  }

  // ----- what the loops of the register operations leave behind

  lemma OneZeroWord(s: seq<int>)
    requires |s| == 9
    ensures s[0] == 0 ==> Low(s, 1) == 0
  {
    assert Sum(s, 1, D) == Sum(s, 0, D) + s[0] * Weight(D, 0);
  }

  lemma Pow2Word()
    ensures Pow2(0) == 1 && Pow2(32) == D
  {
    Pow2Values();
  }

  /** Bit j of x. */
  lemma {:induction false} ZeroBit(x: nat, j: nat)
    ensures And(x, Pow2(j)) == 0 <==> x / Pow2(j) % 2 == 0
  {
    if j == 0 {
      assert x / Pow2(0) == x;
    } else if x == 0 {
      DivModUnique(0, Pow2(j), 0, 0);
    } else {
      var h := Pow2(j - 1);
      ZeroBit(x / 2, j - 1);
      assert Pow2(j) / 2 == h && Pow2(j) % 2 == 0;
      HalveQuotient(x, h);
    }
  }

  lemma HalveQuotient(x: nat, h: nat)
    requires h > 0
    ensures x / (2 * h) == x / 2 / h
  {
    DivMod(x / 2, h);
    var q, r := x / 2 / h, x / 2 % h;
    assert q * (2 * h) == 2 * (q * h);
    DivModUnique(x, 2 * h, q, 2 * r + x % 2);
  }

  lemma ZeroBitNext(x: word, j: nat)
    requires x != 0 && j < 32 && x % Pow2(j) == 0 && x / Pow2(j) % 2 == 0
    ensures j + 1 < 32 && x % Pow2(j + 1) == 0
  {
    Pow2Values();
    var q := Pow2(j);
    assert Pow2(j + 1) == 2 * q;
    hide Pow2;
    EvenQuotient(x, q);
    if j == 31 {
      SmallMultiple(x);
    }
  }

  lemma EvenQuotient(x: nat, q: nat)
    requires q > 0 && x % q == 0 && x / q % 2 == 0
    ensures x % (2 * q) == 0
  {
    DivMod(x, q);
    var h := x / q / 2;
    assert x / q == 2 * h;
    HalfProduct(h, q);
    DivModUnique(x, 2 * q, h, 0);
  }

  lemma HalfProduct(h: int, q: int)
    ensures (2 * h) * q == h * (2 * q)
  {
  }

  lemma SmallMultiple(x: nat)
    requires x % TWO32 == 0 && x != 0
    ensures x >= TWO32
  {
    if x < TWO32 {
      DivModUnique(x, TWO32, 0, x);
      assert false;
    }
  }

  lemma RightShiftDone(s: seq<word>, r: seq<word>, l: nat, j: nat)
    requires |s| == |r| == 9 && 1 <= l <= 8 && 0 < j < 32
    requires s[0] != 0 && s[0] % Pow2(j) == 0 && s[l - 1] != 0
    requires forall m :: 0 <= m < l - 1 ==> r[m] == RightShifted(s[m], s[m + 1], j)
    requires r[l - 1] == s[l - 1] / Pow2(j)
    ensures Low(s, l) == Low(r, l) * Pow2(j)
    ensures r[l - 1] == 0 ==> l >= 2 && r[l - 2] != 0
    ensures r[0] % 2 == s[0] / Pow2(j) % 2
  {
    hide Pow2, RightShifted, Low;
    RightShiftValue(s, r, l, j);
    DivMod(s[0], Pow2(j));
    if l >= 2 {
      assert r[l - 2] == RightShifted(s[l - 2], s[l - 1], j);
      assert r[0] == RightShifted(s[0], s[1], j);
    }
  }

  lemma UpperSame(r: seq<int>, s: seq<int>, l: nat)
    requires |s| == |r| == 9 && l <= 9 && forall m :: l <= m < 9 ==> r[m] == s[m]
    ensures High(r, l) == High(s, l)
  {
    SumSame(Rev(r), Rev(s), 9 - l, D);
  }

  lemma LeftShiftDone(s: seq<word>, r: seq<word>, t: seq<word>, l: nat, n: nat, j: nat)
    requires |s| == |r| == |t| == 9 && 1 <= n <= l <= 8 && 0 < j < 32
    requires n == l || (n == l - 1 && r[l - 1] == 0)
    requires r[n - 1] != 0
    requires forall m :: l <= m < 9 ==> r[m] == s[m]
    requires forall m :: 0 <= m < n ==> t[m] == r[m]
    requires forall m :: n <= m < 8 ==> t[m] == LeftShifted(r[m], r[m + 1], j)
    requires t[8] == Shl32(r[8], j)
    requires Low(s, l) == Low(r, l) * Pow2(j) && High(s, l) >= 0 && Low(s, l) * High(s, l) < Weight(D, 8)
    ensures Low(s, l) == Low(t, n) * Pow2(j) && High(t, n) == High(s, l) * Pow2(j)
  {
    hide Pow2, LeftShifted, Shl32, Sum, Weight;
    UpperSame(r, s, l);
    if n < l {
      MoveBoundary(r, l);
    }
    SumSame(t, r, n, D);
    TopWord(r, n);
    hide Low, High;
    RoomAfterShift(Low(r, n), High(s, l), Pow2(j), n);
    LeftShiftValue(r, t, n, j);
  }

  lemma RoomAfterShift(w: int, h: int, q: nat, n: nat)
    requires 1 <= n <= 8 && w >= Weight(D, n - 1) && h >= 0 && (w * q) * h < Weight(D, 8)
    ensures h * q < Weight(D, 9 - n)
  {
    hide Weight;
    assert w * (h * q) == (w * q) * h;
    Product(q, 0, h);
    HasRoom(w, h * q, n);
  }

  // ----- subtraction and addition

  ghost function Difference(x: seq<int>, y: seq<int>, n: nat): (c: seq<int>)
    requires |x| == |y|
    ensures |c| == |x| && forall i :: 0 <= i < |x| ==> c[i] == D - 1 + x[i] - if i < n then y[i] else 0
  {
    seq(|x|, i requires 0 <= i < |x| => D - 1 + x[i] - if i < n then y[i] else 0)
  }

  /** x - y on l words, y using only n of them. */
  lemma DifferenceValue(x: seq<int>, y: seq<int>, out: seq<int>, n: nat, l: nat, carry: int)
    requires |x| == |y| == |out| == 9 && n <= l <= 9 && Normal(out, D) && Normal(x, D) && Normal(y, D)
    requires Carried(out, Difference(x, y, n), l, carry, 1, D)
    requires Low(x, l) >= Low(y, n)
    ensures Low(out, l) == Low(x, l) - Low(y, n)
  {
    hide Sum, Weight, Carried;
    var z := seq(9, i requires 0 <= i < 9 => if i < n then y[i] else 0);
    SumSame(z, y, n, D);
    SumTail(z, n, l, D);
    SumRaised(Difference(x, y, n), x, x, 0, z, l, D);
    SumBound(x, l, D);
    SumBound(out, l, D);
    SumBound(y, n, D);
    var v := Low(x, l) - Low(y, n);
    CarryEnd(out, Difference(x, y, n), l, carry, 1, D);
    DivModUnique(v + Weight(D, l), Weight(D, l), 1, v);
  }

  ghost function Total(x: seq<int>, y: seq<int>, n: nat): (c: seq<int>)
    requires |x| == |y|
    ensures |c| == |x| && forall i :: 0 <= i < |x| ==> c[i] == x[i] + if i < n then y[i] else 0
  {
    seq(|x|, i requires 0 <= i < |x| => x[i] + if i < n then y[i] else 0)
  }

  /** The second numbers of two registers, added; the sum has room beside the first number of one of them. */
  lemma TotalValue(x: seq<int>, y: seq<int>, out: seq<int>, m: nat, l: nat, carry: int)
    requires |x| == |y| == |out| == 9 && 1 <= l <= m <= 9 && Normal(out, D) && carry >= 0
    requires Carried(Rev(out), Total(Rev(x), Rev(y), 9 - m), 9 - l, carry, 0, D)
    requires High(x, l) + High(y, m) < Weight(D, 9 - l)
    ensures High(out, l) == High(x, l) + High(y, m)
  {
    hide Sum, Weight, Carried;
    var n := 9 - m;
    var b, e := Rev(x), Rev(y);
    var z := seq(9, i requires 0 <= i < 9 => if i < n then e[i] else 0);
    SumSame(z, e, n, D);
    SumTail(z, n, 9 - l, D);
    SumLinear(Total(b, e, n), b, z, 1, 1, 9 - l, D);
    NoCarryOut(Rev(out), Total(b, e, n), 9 - l, carry);
  }

  /** Comparing numbers of different length, or of equal length with equal words above i. */
  lemma LongerIsLarger(x: seq<int>, y: seq<int>, l: nat, m: nat)
    requires |x| == |y| == 9 && 1 <= m < l <= 9 && Normal(x, D) && Normal(y, D) && x[l - 1] != 0
    ensures Low(x, l) > Low(y, m)
  {
    TopWord(x, l);
    SumBound(y, m, D);
    WeightMono(D, m, l - 1);
  }

  lemma {:induction false} FirstDifference(x: seq<int>, y: seq<int>, i: nat, l: nat)
    requires |x| == |y| == 9 && i < l <= 9 && Normal(x, D) && Normal(y, D) && x[i] > y[i]
    requires forall m :: i < m < l ==> x[m] == y[m]
    ensures Low(x, l) > Low(y, l)
    decreases l
  {
    if i == l - 1 {
      SumBound(x, i, D);
      SumBound(y, i, D);
      Product(Weight(D, i), y[i] + 1, x[i]);
      assert (y[i] + 1) * Weight(D, i) == y[i] * Weight(D, i) + Weight(D, i);
    } else {
      FirstDifference(x, y, i, l - 1);
    }
  }
}
