/** The operations of the fast bn_inverse on its packed registers, each proved to lose no bit. */
module ComboRegister {
  import opened Words
  import opened Digits
  import opened PackedRegisters

  class Combo {
    const a: array<word>
    var len1: int

    constructor ()
      ensures a.Length == 9 && fresh(a) && len1 == 8
    {
      a := new word[9];
      len1 := 8;
    }

    ghost predicate Shape()
      reads this
    {
      a.Length == 9 && 1 <= len1 <= 8
    }

    /** The first number has a nonzero top word. */
    ghost predicate Tight()
      reads this, a
    {
      Shape() && a[len1 - 1] != 0
    }

    ghost function First(): int
      requires Shape()
      reads this, a
    {
      Low(a[..], len1)
    }

    ghost function Second(): int
      requires Shape()
      reads this, a
    {
      High(a[..], len1)
    }

    /** Drops zero words from the top of the first number. */
    method AdjustLength()
      requires Shape() && First() > 0
      modifies this`len1
      ensures Tight() && First() == old(First()) && Second() == old(Second())
    {
      hide Low, High;
      ghost var s, w, t := a[..], First(), Second();
      while a[len1 - 1] == 0
        invariant Shape() && Low(s, len1) == w && High(s, len1) == t
        decreases len1
      {
        MoveBoundary(s, len1);
        OneZeroWord(s);
        len1 := len1 - 1;
      }
    }

    /** Shifts whole zero words out of the first number and into the second; returns the number of bits shifted. */
    method ShiftLimbs() returns (bits: nat)
      requires Tight()
      modifies this`len1, a
      ensures Tight() && a[0] != 0
      ensures old(First()) == First() * Pow2(bits) && Second() == old(Second()) * Pow2(bits)
      ensures bits == 0 ==> a[..] == old(a[..])
    {
      hide Low, High, Pow2;
      bits := 0;
      ghost var w, t := First(), Second();
      Pow2Word();
      while a[0] == 0
        invariant Tight() && (bits == 0 ==> a[..] == old(a[..]))
        invariant w == First() * Pow2(bits) && Second() == t * Pow2(bits)
        decreases len1
      {
        ghost var s, l := a[..], len1;
        var i := 0;
        while i < 8
          invariant 0 <= i <= 8 && len1 == l
          invariant forall m :: 0 <= m < i ==> a[m] == s[m + 1]
          invariant forall m :: i <= m < 9 ==> a[m] == s[m]
        {
          a[i] := a[i + 1];
          i := i + 1;
        }
        a[8] := 0;
        ShiftWords(s, a[..], len1);
        len1 := len1 - 1;
        Pow2Add(bits, 32);
        Regroup(First(), Pow2(bits), D);
        Regroup(t, Pow2(bits), D);
        bits := bits + 32;
      }
    }

    /** The number of zero bits below the lowest one bit. */
    method CountZeros() returns (j: nat)
      requires a.Length == 9 && a[0] != 0
      ensures j < 32 && a[0] % Pow2(j) == 0 && a[0] / Pow2(j) % 2 == 1
    {
      j := 0;
      Pow2Word();
      hide And, Pow2;
      ZeroBit(a[0], 0);
      while And(a[0], Pow2(j)) == 0
        invariant j < 32 && a[0] % Pow2(j) == 0
        invariant And(a[0], Pow2(j)) == 0 <==> a[0] / Pow2(j) % 2 == 0
        decreases 32 - j
      {
        ZeroBitNext(a[0], j);
        j := j + 1;
        ZeroBit(a[0], j);
      }
    }

    /** Shifts the first number right and the second left by j bits. */
    method ShiftBits(j: nat)
      requires Tight() && 0 < j < 32 && a[0] != 0 && a[0] % Pow2(j) == 0
      requires Second() >= 0 && First() * Second() < Weight(D, 8)
      modifies this`len1, a
      ensures Tight() && old(First()) == First() * Pow2(j) && Second() == old(Second()) * Pow2(j)
      ensures a[0] % 2 == old(a[0] / Pow2(j) % 2)
    {
      hide Low, High, Shr, Shl32, Pow2, RightShifted, LeftShifted, Weight;
      ghost var s, l := a[..], len1;
      var i := 0;
      while i + 1 < len1
        invariant 0 <= i < len1 == l
        invariant forall m :: 0 <= m < i ==> a[m] == RightShifted(s[m], s[m + 1], j)
        invariant forall m :: i <= m < 9 ==> a[m] == s[m]
      {
        a[i] := RightShifted(a[i], a[i + 1], j);
        i := i + 1;
      }
      a[i] := ShrWord(a[i], j);
      ghost var r := a[..];
      RightShiftDone(s, r, l, j);
      if a[i] == 0 {
        len1 := len1 - 1;
      } else {
        i := i + 1;
      }
      ghost var n := len1;
      while i < 8
        invariant n <= i <= 8 && len1 == n
        invariant forall m :: n <= m < i ==> a[m] == LeftShifted(r[m], r[m + 1], j)
        invariant forall m :: 0 <= m < n || i <= m < 9 ==> a[m] == r[m]
      {
        a[i] := LeftShifted(a[i], a[i + 1], j);
        i := i + 1;
      }
      a[i] := Shl32(a[i], j);
      LeftShiftDone(s, r, a[..], l, n, j);
    }

    /** Makes the first number odd by halving it while the second is doubled; returns how often. */
    method MakeOdd() returns (bits: nat)
      requires Shape() && First() > 0 && Second() >= 0 && First() * Second() < Weight(D, 8)
      modifies this`len1, a
      ensures Tight() && a[0] % 2 == 1
      ensures old(First()) == First() * Pow2(bits) && Second() == old(Second()) * Pow2(bits)
      ensures bits == 0 ==> a[..] == old(a[..])
    {
      hide Low, High, Pow2, Weight;
      ghost var s, w, t := a[..], First(), Second();
      AdjustLength();
      bits := ShiftLimbs();
      ShiftedSame(w, t, First(), Second(), bits);
      var j := CountZeros();
      if j > 0 {
        ghost var w1, t1 := First(), Second();
        ShiftBits(j);
        ShiftedTwice(w, w1, First(), t, t1, Second(), bits, j);
        bits := bits + j;
      } else {
        OddAlready(a[0]);
      }
    }

    /** Subtracts the first number of a shorter register. */
    method SubtractFirst(odd: Combo)
      requires Shape() && odd.Shape() && a != odd.a && odd.len1 <= len1 && First() >= odd.First()
      modifies a
      ensures First() == old(First()) - odd.First() && Second() == old(Second())
    {
      hide Low, High, Sum, Weight, Carried, Difference;
      ghost var x, y, n := a[..], odd.a[..], odd.len1;
      ghost var c := Difference(x, y, n);
      var temp: dword := 1;
      CarryStart(a[..], c, 1, D);
      var i := 0;
      while i < odd.len1
        invariant 0 <= i <= n && temp <= 1
        invariant forall m :: i <= m < 9 ==> a[m] == x[m]
        invariant Carried(a[..], c, i, temp, 1, D)
      {
        ghost var s, t := a[..], temp;
        temp := temp + (0xFFFF_FFFF + a[i] as dword - odd.a[i] as dword);
        a[i] := temp % 0x1_0000_0000;
        temp := temp / 0x1_0000_0000;
        CarryStep(s, a[..], c, i, t, temp, 1, D);
        i := i + 1;
      }
      while i < len1
        invariant n <= i <= len1 && temp <= 1
        invariant forall m :: i <= m < 9 ==> a[m] == x[m]
        invariant Carried(a[..], c, i, temp, 1, D)
      {
        ghost var s, t := a[..], temp;
        temp := temp + (0xFFFF_FFFF + a[i] as dword);
        a[i] := temp % 0x1_0000_0000;
        temp := temp / 0x1_0000_0000;
        CarryStep(s, a[..], c, i, t, temp, 1, D);
        i := i + 1;
      }
      DifferenceValue(x, y, a[..], n, len1, temp);
      UpperSame(a[..], x, len1);
    }

    /** One round of a carry that runs from the last word down. */
    lemma CarryDown(s: seq<int>, s': seq<int>, c: seq<int>, i: nat, t: int, t': int)
      requires i < |s| == |s'| == |c| == 9 && Carried(Rev(s), c, 8 - i, t, 0, D)
      requires s' == s[i := s'[i]] && t' * D + s'[i] == t + c[8 - i]
      ensures Carried(Rev(s'), c, 9 - i, t', 0, D)
    {
      hide Carried;
      CarryStep(Rev(s), Rev(s'), c, 8 - i, t, t', 0, D);
    }

    /** Adds the second number of a register whose first number is longer. */
    method AddSecond(even: Combo)
      requires Shape() && even.Shape() && a != even.a && len1 <= even.len1
      requires Second() + even.Second() < Weight(D, 9 - len1)
      modifies a
      ensures Second() == old(Second()) + even.Second() && First() == old(First())
      ensures a[len1 - 1] == old(a[len1 - 1]) && a[0] == old(a[0])
    {
      hide High, Sum, Weight, Carried, Rev, Total;
      ghost var x, y, m := a[..], even.a[..], even.len1;
      ghost var c := Total(Rev(x), Rev(y), 9 - m);
      var temp: dword := 0;
      CarryStart(Rev(a[..]), c, 0, D);
      var i := 8;
      while i >= even.len1
        invariant m - 1 <= i <= 8 && temp <= 1
        invariant forall m :: 0 <= m <= i ==> a[m] == x[m]
        invariant Carried(Rev(a[..]), c, 8 - i, temp, 0, D)
      {
        ghost var s, t := a[..], temp;
        temp := temp + (a[i] as dword + even.a[i] as dword);
        a[i] := temp % 0x1_0000_0000;
        temp := temp / 0x1_0000_0000;
        CarryDown(s, a[..], c, i, t, temp);
        i := i - 1;
      }
      while i >= len1
        invariant len1 - 1 <= i <= m - 1 && temp <= 1
        invariant forall m :: 0 <= m <= i ==> a[m] == x[m]
        invariant Carried(Rev(a[..]), c, 8 - i, temp, 0, D)
      {
        ghost var s, t := a[..], temp;
        temp := temp + a[i] as dword;
        a[i] := temp % 0x1_0000_0000;
        temp := temp / 0x1_0000_0000;
        CarryDown(s, a[..], c, i, t, temp);
        i := i - 1;
      }
      TotalValue(x, y, a[..], m, len1, temp);
      LowSame(a[..], x, len1);
    }

    /** The sign of the difference of the first numbers. */
    method Compare(other: Combo) returns (cmp: int)
      requires Tight() && other.Tight()
      ensures cmp > 0 <==> First() > other.First()
      ensures cmp < 0 <==> First() < other.First()
    {
      hide Low, Weight, Sum;
      cmp := len1 - other.len1;
      if cmp == 0 {
        var i := len1 - 1;
        while i >= 0 && a[i] == other.a[i]
          invariant -1 <= i < len1
          invariant forall m :: i < m < len1 ==> a[m] == other.a[m]
        {
          i := i - 1;
        }
        if i == -1 {
          LowSame(a[..], other.a[..], len1);
          return 0;
        }
        if a[i] > other.a[i] {
          cmp := 1;
          FirstDifference(a[..], other.a[..], i, len1);
        } else {
          cmp := -1;
          FirstDifference(other.a[..], a[..], i, len1);
        }
      } else if cmp > 0 {
        LongerIsLarger(a[..], other.a[..], len1, other.len1);
      } else {
        LongerIsLarger(other.a[..], a[..], other.len1, len1);
      }
    }
  }

  lemma LowSame(x: seq<int>, y: seq<int>, l: nat)
    requires |x| == |y| == 9 && l <= 9 && forall m :: 0 <= m < l ==> x[m] == y[m]
    ensures Low(x, l) == Low(y, l)
  {
    SumSame(x, y, l, D);
  }

  lemma Regroup(x: int, y: int, z: int)
    ensures (z * x) * y == x * (y * z) == z * (x * y)
  {
  }

  lemma ShiftedSame(w: int, t: int, w1: int, t1: int, bits: nat)
    requires w == w1 * Pow2(bits) && t1 == t * Pow2(bits) && t >= 0
    ensures w1 * t1 == w * t && t1 >= 0
  {
    hide Pow2;
    assert w1 * (t * Pow2(bits)) == (w1 * Pow2(bits)) * t;
    Product(Pow2(bits), 0, t);
  }

  lemma ShiftedTwice(w: int, w1: int, w2: int, t: int, t1: int, t2: int, m: nat, n: nat)
    requires w == w1 * Pow2(m) && w1 == w2 * Pow2(n) && t1 == t * Pow2(m) && t2 == t1 * Pow2(n)
    ensures w == w2 * Pow2(m + n) && t2 == t * Pow2(m + n)
  {
    Pow2Add(m, n);
    hide Pow2;
    assert (w2 * Pow2(n)) * Pow2(m) == w2 * (Pow2(m) * Pow2(n));
    assert (t * Pow2(m)) * Pow2(n) == t * (Pow2(m) * Pow2(n));
  }

  lemma OddAlready(x: word)
    requires x / Pow2(0) % 2 == 1
    ensures x % 2 == 1
  {
  }

  function ShrWord(x: word, j: nat): (r: word)
    ensures r == Shr(x, j) == x / Pow2(j)
  {
    Shr(x, j)
  }
}
