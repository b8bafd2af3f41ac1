/** The fast modular inverse (bn_inverse with USE_INVERSE_FAST): the almost inverse on packed registers,
    followed by the division by a power of two. */
module BignumInverse {
  import opened Words
  import opened Digits
  import opened Congruence
  import opened BignumBasics
  import opened BignumReduce
  import opened BignumConvert
  import opened PackedRegisters
  import opened ComboRegister
  import opened AlmostInverse

  // ----- -1 / a modulo 2^32

  /** The negated inverse of an odd word, by squaring a - 1 until it vanishes modulo 2^32. */
  method NegatedInverse(a: word) returns (inverse: word)
    requires a % 2 == 1
    ensures Cong(inverse * a as int, -1, TWO32)
  {
    hide Wrap32, Cong, Pow2;
    var amone: word := a - 1;
    inverse := Wrap32(a as int - 2);
    NewtonStart(a);
    ghost var e := 1;
    while amone != 0
      invariant 1 <= e <= 32 && amone % Pow2(e) == 0
      invariant Cong(inverse * a as int, amone * amone as int - 1, TWO32)
      decreases 32 - e
    {
      NewtonStep(a, amone, inverse, e);
      amone := Wrap32(amone as int * amone as int);
      inverse := Wrap32(inverse as int * (amone as int + 1));
      e := if 2 * e < 32 then 2 * e else 32;
    }
  }

  lemma NewtonStart(a: int)
    requires 1 <= a < TWO32 && a % 2 == 1
    ensures (a - 1) % Pow2(1) == 0
    ensures Cong(Wrap32(a - 2) * a, (a - 1) * (a - 1) - 1, TWO32)
  {
    assert Pow2(1) == 2;
    Residue(a - 2, TWO32);
    Mul(Wrap32(a - 2), a - 2, a, a, TWO32);
    assert (a - 2) * a == (a - 1) * (a - 1) - 1;
  }

  /** One factor of the product: (m^2 - 1) * (m^2 + 1) = m^4 - 1. */
  lemma NewtonStep(a: int, m: word, inverse: int, e: nat)
    requires 1 <= e <= 32 && m % Pow2(e) == 0 && m != 0
    requires Cong(inverse * a, m * m as int - 1, TWO32)
    ensures e < 32
    ensures var n := Wrap32(m as int * m as int);
      && Cong(Wrap32(inverse * (n + 1)) * a, n * n - 1, TWO32)
      && n % Pow2(if 2 * e < 32 then 2 * e else 32) == 0
  {
    var sq := m as int * m as int;
    var n := Wrap32(sq);
    NewtonCong(a, sq, n, inverse);
    VanishingBits(m, e);
  }

  lemma NewtonCong(a: int, sq: int, n: int, inverse: int)
    requires n == Wrap32(sq) && Cong(inverse * a, sq - 1, TWO32)
    ensures Cong(Wrap32(inverse * (n + 1)) * a, n * n - 1, TWO32)
  {
    hide Cong;
    Residue(sq, TWO32);
    Residue(inverse * (n + 1), TWO32);
    Mul(Wrap32(inverse * (n + 1)), inverse * (n + 1), a, a, TWO32);
    assert (inverse * (n + 1)) * a == (inverse * a) * (n + 1);
    CongShift(n, sq, TWO32);
    Sym(n - 1, sq - 1, TWO32);
    Trans(inverse * a, sq - 1, n - 1, TWO32);
    CongSelf(n + 1, TWO32);
    Mul(inverse * a, n - 1, n + 1, n + 1, TWO32);
    assert (n - 1) * (n + 1) == n * n - 1;
    Trans(Wrap32(inverse * (n + 1)) * a, (inverse * a) * (n + 1), n * n - 1, TWO32);
  }

  lemma CongSelf(a: int, p: int)
    requires p > 0
    ensures Cong(a, a, p)
  {
  }

  lemma CongShift(a: int, b: int, p: int)
    requires p > 0 && Cong(a, b, p)
    ensures Cong(a - 1, b - 1, p)
  {
  }

  lemma VanishingBits(m: word, e: nat)
    requires 1 <= e <= 32 && m % Pow2(e) == 0 && m != 0
    ensures e < 32
    ensures Wrap32(m as int * m as int) % Pow2(if 2 * e < 32 then 2 * e else 32) == 0
  {
    Pow2Values();
    hide Pow2;
    if e == 32 {
      SmallMultiple(m);
      assert false;
    }
    var f := if 2 * e < 32 then 2 * e else 32;
    Pow2Add(f, 32 - f);
    Pow2Add(e, f - e);
    Pow2Mono(f - e, e);
    SquareDivisible(m, Pow2(e), Pow2(f - e), Pow2(2 * e - f));
    Pow2Add(f - e, 2 * e - f);
    WrapDivisible(m as int * m as int, Pow2(f), Pow2(32 - f));
  }

  lemma SquareDivisible(m: int, q: nat, g: nat, h: nat)
    requires q > 0 && g > 0 && m % q == 0
    ensures q == g * h ==> (m * m) % (q * g) == 0
  {
    if q == g * h {
      DivMod(m, q);
      var c := m / q;
      assert m * m == (c * q) * (c * (g * h));
      assert (c * q) * (c * (g * h)) == (c * c * h) * (q * g);
      Product(q, 1, g);
      DivModUnique(m * m, q * g, c * c * h, 0);
    }
  }

  lemma WrapDivisible(x: int, f: nat, g: nat)
    requires f > 0 && g > 0 && f * g == TWO32 && x % f == 0
    ensures Wrap32(x) % f == 0
  {
    DivMod(x, f);
    DivMod(x, TWO32);
    var k := x / TWO32;
    assert k * (f * g) == (k * g) * f;
    assert (x / f - k * g) * f == (x / f) * f - (k * g) * f;
    DivModUnique(Wrap32(x), f, x / f - k * g, 0);
  }

  // ----- s / 2^k modulo p

  /** s + factor * p, column by column. */
  ghost function Added(b: seq<int>, pp: seq<int>, f: int): (x: seq<int>)
    requires |b| >= 8 && |pp| == 8
    ensures |x| == 8 && forall i :: 0 <= i < 8 ==> x[i] == b[i] + pp[i] * f
  {
    seq(8, i requires 0 <= i < 8 => b[i] + pp[i] * f)
  }

  /** The columns above the lowest one, shifted down by k of 32 bits; e = 2^(32 - k). */
  ghost function ShiftedDown(x: seq<int>, e: int): (c: seq<int>)
    requires |x| == 8
    ensures |c| == 7 && forall i :: 0 <= i < 7 ==> c[i] == x[i + 1] * e
  {
    seq(7, i requires 0 <= i < 7 => x[i + 1] * e)
  }

  lemma ShiftedDownValue(x: seq<int>, q: int, e: int, start: int)
    requires |x| == 8 && q * e == D && x[0] == q * start
    ensures q * (Sum(ShiftedDown(x, e), 7, D) + start) == Sum(x, 8, D)
  {
    hide Sum, Weight;
    var c := ShiftedDown(x, e);
    var y := x[1..];
    assert forall i :: 0 <= i < 7 ==> y[i] == x[i + 1];
    SumLinear(c, y, y, e, 0, 7, D);
    FirstDigit(x);
    assert q * (e * Sum(y, 7, D)) == D * Sum(y, 7, D);
    assert q * (e * Sum(y, 7, D) + start) == q * (e * Sum(y, 7, D)) + q * start;
  }

  lemma FirstDigit(x: seq<int>)
    requires |x| == 8
    ensures Sum(x, 8, D) == x[0] + D * Sum(x[1..], 7, D)
  {
    SumSplit(x, 1, 8, D);
    assert Weight(D, 1) == D * Weight(D, 0);
    assert Sum(x, 1, D) == Sum(x, 0, D) + x[0] * Weight(D, 0);
  }

  /** The multiple of p that clears the k low bits. */
  lemma FactorClears(a: word, b: word, inverse: word, k: nat)
    requires 1 <= k <= 32 && Cong(inverse * b as int, -1, TWO32)
    ensures var f := Wrap32(inverse as int * a as int) % Pow2(k);
      0 <= f < Pow2(k) && (a + b as int * f) % Pow2(k) == 0
  {
    PowerSplit(k);
    hide Pow2, Wrap32, Cong;
    var q := Pow2(k);
    var g := Wrap32(inverse as int * a as int);
    DivMod(g, q);
    var z := FactorMultiple(a, b, inverse);
    ClearedBits(a, b, g, g % q, z, q, Pow2(32 - k));
  }

  /** a + b * g is a multiple of 2^32. */
  lemma FactorMultiple(a: int, b: int, inverse: int) returns (z: int)
    requires Cong(inverse * b, -1, TWO32)
    ensures Wrap32(inverse * a) * b == -a + z * TWO32
  {
    var g := Wrap32(inverse * a);
    Residue(inverse * a, TWO32);
    hide Wrap32, Cong;
    CongSelf(a, TWO32);
    CongSelf(b, TWO32);
    Mul(g, inverse * a, b, b, TWO32);
    assert (inverse * a) * b == (inverse * b) * a;
    Mul(inverse * b, -1, a, a, TWO32);
    Trans(g * b, (inverse * b) * a, -a, TWO32);
    z := Quotient(g * b, -a, TWO32);
  }

  lemma ClearedBits(a: int, b: int, g: int, f: int, z: int, q: nat, h: nat)
    requires q > 0 && q * h == TWO32 && f == g % q && g * b == -a + z * TWO32
    ensures (a + b * f) % q == 0
  {
    DivMod(g, q);
    var n := g / q;
    assert g * b == (n * q) * b + f * b;
    assert (n * q) * b == (n * b) * q;
    assert z * (q * h) == (z * h) * q;
    assert (z * h - n * b) * q == (z * h) * q - (n * b) * q;
    DivModUnique(a + b * f, q, z * h - n * b, 0);
  }

  lemma ColumnFits(a: word, b: word, f: nat, q: nat, e: nat)
    requires 0 <= f < q && q * e == D && e > 0
    ensures 0 <= a + b as int * f <= 0xFFFF_FFFF * q
    ensures 0 <= (a + b as int * f) * e <= 0xFFFF_FFFF * D
    ensures (a + b as int * f) / q <= 0xFFFF_FFFF && (a + b as int * f) / q >= 0
  {
    ProductBound(b, f, 0xFFFF_FFFF, q - 1);
    var v := a + b as int * f;
    Product(e, v, 0xFFFF_FFFF * q);
    Product(e, 0, v);
    assert (0xFFFF_FFFF * q) * e == 0xFFFF_FFFF * (q * e);
    QuotientBelow(v, q, D);
    QuotientBound(v, q);
  }

  /** us.a[8..1] = s / 2^k modulo p, for 1 <= k <= 32.  With k = 32 this is the body of the word-wise loop. */
  method DivideByPower(us: array<word>, pp: array<word>, inverse: word, k: nat)
    requires us.Length == 9 && pp.Length == 8 && us != pp && 1 <= k <= 32
    requires Cong(inverse * pp[0] as int, -1, TWO32)
    requires 0 < Sum(pp[..], 8, D) < Weight(D, 8) && High(us[..], 1) < Sum(pp[..], 8, D)
    modifies us
    ensures 0 <= High(us[..], 1) < Sum(pp[..], 8, D)
    ensures Cong(High(us[..], 1) * Pow2(k), old(High(us[..], 1)), Sum(pp[..], 8, D))
  {
    hide Sum, Weight, Carried, Cong, Pow2, Wrap32, Rev, High;
    ghost var s, ps := us[..], pp[..];
    ghost var q, e := Pow2(k), Pow2(32 - k);
    PowerSplit(k);
    FactorClears(us[8], pp[0], inverse, k);
    var factor: word := Wrap32(inverse as int * us[8] as int) % Pow2(k);
    ghost var x := Added(Rev(s), ps, factor);
    ghost var c := ShiftedDown(x, e);
    RevDigits(s);
    ColumnFits(us[8], pp[0], factor, q, e);
    var temp: dword := (us[8] as int + pp[0] as int * factor as int) / Pow2(k);
    ghost var start := temp;
    CarryStart(Rev(us[..]), c, start, D);
    var i := 0;
    while i < 7
      invariant 0 <= i <= 7 && 0 <= temp <= 0xFFFF_FFFF && pp[..] == ps
      invariant forall m :: 0 <= m <= 8 - i ==> us[m] == s[m]
      invariant Carried(Rev(us[..]), c, i, temp, start, D)
    {
      ghost var r, t := us[..], temp;
      ColumnFits(us[8 - (i + 1)], pp[i + 1], factor, q, e);
      assert c[i] == (us[8 - (i + 1)] as int + pp[i + 1] as int * factor as int) * e;
      temp := temp + (us[8 - (i + 1)] as int + pp[i + 1] as int * factor as int) * Pow2(32 - k);
      us[8 - i] := temp % 0x1_0000_0000;
      temp := temp / 0x1_0000_0000;
      RevStore(r, us[..], 8 - i);
      CarryStep(Rev(r), Rev(us[..]), c, i, t, temp, start, D);
      i := i + 1;
    }
    ghost var r := us[..];
    us[8 - i] := temp % 0x1_0000_0000;
    RevStore(r, us[..], 1);
    CarrySame(Rev(r), Rev(us[..]), c, 7, temp, start, D);
    DivisionValue(s, ps, us[..], factor, q, e, start, temp);
  }

  lemma PowerSplit(k: nat)
    requires 1 <= k <= 32
    ensures Pow2(k) * Pow2(32 - k) == D == TWO32
  {
    Pow2Values();
    Pow2Add(k, 32 - k);
  }

  lemma RevDigits(s: seq<int>)
    requires |s| == 9
    ensures forall i :: 0 <= i < 9 ==> Rev(s)[i] == s[8 - i]
  {
  }

  lemma RevStore(r: seq<int>, s: seq<int>, m: nat)
    requires |r| == |s| == 9 && m <= 8 && forall i :: 0 <= i < 9 && i != m ==> r[i] == s[i]
    ensures forall i :: 0 <= i < 8 - m ==> Rev(r)[i] == Rev(s)[i]
    ensures Rev(s)[8 - m] == s[m]
  {
  }

  lemma DivisionValue(s: seq<word>, pp: seq<word>, r: seq<word>, f: int, q: nat, e: nat, start: int, temp: int)
    requires |s| == |r| == 9 && |pp| == 8 && 0 <= f < q && q * e == D
    requires (s[8] + pp[0] as int * f) % q == 0 && start == (s[8] + pp[0] as int * f) / q
    requires Carried(Rev(r), ShiftedDown(Added(Rev(s), pp, f), e), 7, temp, start, D)
    requires 0 <= temp <= 0xFFFF_FFFF && r[1] == temp
    requires 0 < Sum(pp, 8, D) && High(s, 1) < Sum(pp, 8, D)
    ensures 0 <= High(r, 1) < Sum(pp, 8, D) && Cong(High(r, 1) * q, High(s, 1), Sum(pp, 8, D))
  {
    var x := Added(Rev(s), pp, f);
    var t, p := High(r, 1), Sum(pp, 8, D);
    DivMod(s[8] + pp[0] as int * f, q);
    assert q * start == x[0];
    ShiftedDownValue(x, q, e, start);
    assert Rev(r)[7] == r[1];
    assert t == Sum(Rev(r), 7, D) + temp * Weight(D, 7);
    assert q * t == Sum(x, 8, D);
    SumLinear(x, Rev(s), pp, 1, f, 8, D);
    SumBound(Rev(r), 8, D);
    SumBound(Rev(s), 8, D);
    hide Sum, Weight, Carried;
    QuotientReduced(q, t, High(s, 1), f, p);
  }

  lemma QuotientReduced(q: int, t: int, s: int, f: int, p: int)
    requires 0 < q && 0 <= s < p && 0 <= f < q && q * t == s + f * p
    ensures t < p && Cong(t * q, s, p)
  {
    Product(p, f, q - 1);
    assert (q - 1) * p == q * p - p;
    if t >= p {
      Product(q, p, t);
      assert false;
    }
    assert t * q == q * t;
    Intro(t * q, s, p, f);
  }

  /** us.a[8..1] = s / 2^k modulo p, for any k. */
  method DivideOut(us: array<word>, pp: array<word>, k0: nat)
    requires us.Length == 9 && pp.Length == 8 && us != pp && pp[0] % 2 == 1
    requires 0 < Sum(pp[..], 8, D) < Weight(D, 8) && High(us[..], 1) < Sum(pp[..], 8, D)
    modifies us
    ensures 0 <= High(us[..], 1) < Sum(pp[..], 8, D)
    ensures Cong(High(us[..], 1) * Pow2(k0), old(High(us[..], 1)), Sum(pp[..], 8, D))
  {
    hide Sum, Weight, Cong, Pow2, High;
    var inverse := NegatedInverse(pp[0]);
    ghost var s, ps := High(us[..], 1), pp[..];
    ghost var p := Sum(ps, 8, D);
    HighNonNegative(us[..]);
    var k := k0;
    DividedStart(s, p);
    while k >= 32
      invariant 0 <= k <= k0 && pp[..] == ps && 0 <= High(us[..], 1) < p
      invariant Cong(High(us[..], 1) * Pow2(k0 - k), s, p)
    {
      ghost var t := High(us[..], 1);
      DivideByPower(us, pp, inverse, 32);
      Divided(High(us[..], 1), t, s, 32, k0 - k, p);
      k := k - 32;
    }
    if k > 0 {
      ghost var t := High(us[..], 1);
      DivideByPower(us, pp, inverse, k);
      Divided(High(us[..], 1), t, s, k, k0 - k, p);
    }
  }

  lemma HighNonNegative(s: seq<word>)
    requires |s| == 9
    ensures High(s, 1) >= 0
  {
    SumBound(Rev(s), 8, D);
  }

  lemma DividedStart(s: int, p: int)
    requires p > 0
    ensures Cong(s * Pow2(0), s, p)
  {
    assert s * Pow2(0) == s;
  }

  lemma Divided(u: int, t: int, s: int, k: nat, n: nat, p: int)
    requires p > 0 && Cong(u * Pow2(k), t, p) && Cong(t * Pow2(n), s, p)
    ensures Cong(u * Pow2(n + k), s, p)
  {
    hide Pow2, Cong;
    CongSelf(Pow2(n), p);
    Mul(u * Pow2(k), t, Pow2(n), Pow2(n), p);
    Pow2Add(k, n);
    assert (u * Pow2(k)) * Pow2(n) == u * (Pow2(k) * Pow2(n));
    Trans(u * Pow2(n + k), t * Pow2(n), s, p);
  }

  // ----- conversion to and from 32-bit words

  /** The eight words of a fully reduced number. */
  method ToWords(x: array<word>, out: array<word>)
    requires Norm(x) && Val(x) < TWO256 && out.Length >= 8 && out != x
    modifies out
    ensures Sum(out[..], 8, D) == Val(x)
    ensures forall m :: 8 <= m < out.Length ==> out[m] == old(out[m])
  {
    hide Or, Shl32, Shr, Sum, Weight, Pow2;
    ghost var val := x[..];
    ShrZero(x[0]);
    var temp32: word := x[0];
    var i := 0;
    while i < 8
      invariant 0 <= i <= 8 && x[..] == val && temp32 == Shr(x[i], 2 * i)
      invariant forall m :: 0 <= m < i ==> out[m] == LimbWord(val, m)
      invariant forall m :: 8 <= m < out.Length ==> out[m] == old(out[m])
    {
      OrCommutes(temp32, Shl32(x[i + 1], 30 - 2 * i));
      WriteStep(x[i], x[i + 1], i);
      temp32 := Or(temp32, Shl32(x[i + 1], 30 - 2 * i));
      out[i] := temp32;
      temp32 := Shr(x[i + 1], 2 + 2 * i);
      i := i + 1;
    }
    LimbWordsValue(val);
    SumSame(out[..], LimbWords(val), 8, D);
  }

  lemma ShrZero(x: nat)
    ensures Shr(x, 0) == x
  {
    assert Pow2(0) == 1;
  }

  lemma MaskedReadStep(temp: nat, limb: word, i: nat)
    requires i < 8 && temp < Pow2(2 * i)
    ensures Or(Shl32(limb, 2 * i) % BASE, temp) == Or(temp, Shl32(limb, 2 * i)) % BASE
  {
    Pow2Values();
    hide Pow2, Or;
    var s, e := Pow2(2 * i), Pow2(30 - 2 * i);
    Pow2Add(2 * i, 30 - 2 * i);
    Pow2Add(2 * i, 32 - 2 * i);
    WrapKeepsLimb(0, limb, s, e);
    WrapKeepsLimb(temp, limb, s, e);
    WrapMultiple(limb, s, Pow2(32 - 2 * i));
    OrDisjoint(temp, Shl32(limb, 2 * i), 2 * i);
    DivModUnique(limb % e * s, s, limb % e, 0);
    OrDisjoint(temp, limb % e * s, 2 * i);
  }

  /** x = the number in us.a[8..1], as limbs. */
  method FromWords(us: array<word>, x: array<word>)
    requires us.Length == 9 && x.Length == 9 && us != x
    modifies x
    ensures Norm(x) && Val(x) == High(us[..], 1)
  {
    hide Sum, Weight, Carried, Shl32, Shr, Or, Pow2;
    ghost var w := Words8(us[..]);
    ghost var c := WordColumns(w);
    var temp32: word := 0;
    CarryStart(x[..], c, 0, BASE);
    Pow2Zero();
    var i := 0;
    while i < 8
      invariant 0 <= i <= 8 && temp32 < Pow2(2 * i) && Words8(us[..]) == w
      invariant forall m :: 0 <= m < i ==> x[m] < BASE
      invariant Carried(x[..], c, i, temp32, 0, BASE)
    {
      ghost var s, t := x[..], temp32;
      assert us[8 - i] == w[i];
      ReadStep(temp32, us[8 - i], i);
      MaskedReadStep(temp32, us[8 - i], i);
      x[i] := Or(Shl32(us[8 - i], 2 * i) % 0x4000_0000, temp32);
      temp32 := Shr(us[8 - i], 30 - 2 * i);
      CarryStep(s, x[..], c, i, t, temp32, 0, BASE);
      i := i + 1;
    }
    ghost var s := x[..];
    x[i] := temp32;
    CarrySame(s, x[..], c, 8, temp32, 0, BASE);
    ReadValue(w, x[..], temp32);
    SumSame(w, Rev(us[..]), 8, D);
    assert High(us[..], 1) == Sum(Rev(us[..]), 8, D);
  }

  ghost function Words8(us: seq<word>): (w: seq<word>)
    requires |us| == 9
    ensures |w| == 8 && forall i :: 0 <= i < 8 ==> w[i] == us[8 - i]
  {
    seq(8, i requires 0 <= i < 8 => us[8 - i])
  }

  // ----- the inverse

  /** What holds of the two registers at the head of the main loop. */
  ghost predicate Registers(X: int, p: int, odd: Combo, even: Combo, k: nat)
    reads odd, odd.a, even, even.a
  {
    && odd.a != even.a && odd.Tight() && even.Shape()
    && Invariant(X, p, odd.First(), odd.Second(), even.First(), even.Second(), k)
    && Bits(odd.First(), even.First(), k)
    && Parity(odd.First(), odd.Second(), even.First(), even.Second())
  }

  /** After the halving, before the comparison: all four parities are known. */
  ghost predicate Halved(X: int, p: int, odd: Combo, even: Combo, k: nat)
    reads odd, odd.a, even, even.a
  {
    && Registers(X, p, odd, even, k) && even.Tight()
    && even.First() % 2 == 1 && even.Second() % 2 == 0
  }

  lemma RegisterParity(s: seq<int>, l: nat)
    requires |s| == 9 && 1 <= l <= 8
    ensures Low(s, l) % 2 == s[0] % 2 && High(s, l) % 2 == s[8] % 2
  {
    SumParity(s, l, D);
    SumParity(Rev(s), 9 - l, D);
    assert Rev(s)[0] == s[8];
  }

  lemma WeightsOfWords()
    ensures Weight(D, 8) == TWO256
  {
    WeightRegroup(8);
    Weights();
    Pow2Values();
    assert Weight(BASE, 8) * Pow2(16) == TWO256;
  }

  /** Halves the even register until it is odd. */
  method HalveEven(odd: Combo, even: Combo, k: nat, ghost X: int, ghost p: int) returns (k': nat)
    requires Modulus(p) && Registers(X, p, odd, even, k)
    modifies even`len1, even.a
    ensures Halved(X, p, odd, even, k') && odd.First() == old(odd.First()) && even.First() <= old(even.First())
  {
    hide Low, High, Weight, Sum, Pow2, Invariant, Bits, Parity;
    ghost var w1, t1, w2, t2 := odd.First(), odd.Second(), even.First(), even.Second();
    RegistersFit(X, p, w1, t1, w2, t2, k);
    var bits := even.MakeOdd();
    k' := k + bits;
    ghost var w := even.First();
    RegisterParity(even.a[..], even.len1);
    HalvedRegisters(X, p, w1, t1, w2, t2, k, bits, w);
  }

  lemma RegistersFit(X: int, p: int, w1: int, t1: int, w2: int, t2: int, k: nat)
    requires Modulus(p) && Invariant(X, p, w1, t1, w2, t2, k)
    ensures w1 >= 1 && w2 >= 1 && t1 >= 0 && t2 >= 0
    ensures w1 * t1 < Weight(D, 8) && w2 * t2 < Weight(D, 8)
  {
    WeightsOfWords();
    ProductsFit(X, p, w1, t1, w2, t2, k);
  }

  lemma HalvedRegisters(X: int, p: int, w1: int, t1: int, w2: int, t2: int, k: nat, j: nat, w: int)
    requires Invariant(X, p, w1, t1, w2, t2, k) && Bits(w1, w2, k) && Parity(w1, t1, w2, t2)
    requires w2 == w * Pow2(j) && w % 2 == 1
    ensures Invariant(X, p, w1, t1, w, t2 * Pow2(j), k + j) && Bits(w1, w, k + j)
    ensures Parity(w1, t1, w, t2 * Pow2(j)) && t2 * Pow2(j) % 2 == 0 && 1 <= w <= w2
  {
    Halve(X, p, w1, t1, w2, t2, k, j, w);
    HalveBits(w1, w2, k, j, w);
    HalveParity(w1, t1, w2, t2, j, w);
    Product(w, 1, Pow2(j));
  }

  /** Subtracts the smaller first number from the larger and adds the second numbers the other way round. */
  method ReduceEven(odd: Combo, even: Combo, k: nat, ghost X: int, ghost p: int)
    requires Modulus(p) && odd.a != even.a && odd.Tight() && even.Tight()
    requires Invariant(X, p, odd.First(), odd.Second(), even.First(), even.Second(), k)
    requires Bits(odd.First(), even.First(), k) && odd.First() < even.First()
    requires odd.First() % 2 == 1 && even.First() % 2 == 1 && (odd.Second() + even.Second()) % 2 == 1
    modifies odd.a, even.a
    ensures Registers(X, p, odd, even, k)
    ensures odd.First() == old(odd.First()) && even.First() == old(even.First()) - odd.First()
  {
    hide Low, High, Weight, Sum, Pow2, Invariant, Bits, Parity;
    ghost var w1, t1, w2, t2 := odd.First(), odd.Second(), even.First(), even.Second();
    ShorterIsSmaller(odd, even);
    ReducedRegisters(X, p, w1, t1, w2, t2, k);
    RegistersFit(X, p, w1, t1 + t2, w2 - w1, t2, k);
    SumHasRoom(odd.a[..], odd.len1, t1 + t2);
    even.SubtractFirst(odd);
    odd.AddSecond(even);
  }

  lemma ReducedRegisters(X: int, p: int, w1: int, t1: int, w2: int, t2: int, k: nat)
    requires Invariant(X, p, w1, t1, w2, t2, k) && Bits(w1, w2, k) && w1 < w2
    requires w1 % 2 == 1 && w2 % 2 == 1 && (t1 + t2) % 2 == 1
    ensures Invariant(X, p, w1, t1 + t2, w2 - w1, t2, k) && Bits(w1, w2 - w1, k)
    ensures Parity(w1, t1 + t2, w2 - w1, t2)
  {
    assert w1 > 0;
    hide Cong, Coprime, Pow2, Invariant, Bits;
    Reduce(X, p, w1, t1, w2, t2, k);
    ReduceBits(w1, w2, k);
    ReduceParity(w1, t1, w2, t2);
  }

  lemma ReduceParity(w1: int, t1: int, w2: int, t2: int)
    requires w1 % 2 == 1 && w2 % 2 == 1 && (t1 + t2) % 2 == 1
    ensures Parity(w1, t1 + t2, w2 - w1, t2)
  {
  }

  lemma ShorterIsSmaller(odd: Combo, even: Combo)
    requires odd.Tight() && even.Tight() && odd.First() < even.First()
    ensures odd.len1 <= even.len1
  {
    if odd.len1 > even.len1 {
      LongerIsLarger(odd.a[..], even.a[..], odd.len1, even.len1);
      assert false;
    }
  }

  lemma SumHasRoom(s: seq<int>, l: nat, t: int)
    requires |s| == 9 && 1 <= l <= 8 && Normal(s, D) && s[l - 1] != 0 && t >= 0 && Low(s, l) * t < Weight(D, 8)
    ensures t < Weight(D, 9 - l)
  {
    TopWord(s, l);
    HasRoom(Low(s, l), t, l);
  }

  /** The almost inverse: both first numbers are 1, and the second number of us is 2^k / x modulo p. */
  method AlmostInvert(us: Combo, vr: Combo, ghost x: int, ghost p: int) returns (k: nat)
    requires us != vr && us.a != vr.a && Modulus(p) && Registers(x, p, us, vr, 0)
    modifies us, us.a, vr, vr.a
    ensures us.len1 == 1 && us.a.Length == 9 && k <= 510
    ensures 0 <= High(us.a[..], 1) < p && Cong(x * High(us.a[..], 1), Pow2(k), p)
  {
    hide Low, High, Weight, Sum, Pow2, Invariant, Bits, Cong, Parity;
    k := 0;
    var odd, even := us, vr;
    ghost var X := x;
    while true
      invariant (odd == us && even == vr && X == x) || (odd == vr && even == us && X == -x)
      invariant Registers(X, p, odd, even, k)
      decreases odd.First() + even.First()
    {
      ghost var sum := odd.First() + even.First();
      k := HalveEven(odd, even, k, X, p);
      SourceAssertions(X, p, odd, even, k);
      var cmp := us.Compare(vr);
      if cmp == 0 {
        break;
      }
      ghost var k1 := k;
      ExchangeIf(X, p, odd, even, k);
      if (cmp > 0) == (odd == us) {
        X := -X;
      }
      if cmp > 0 {
        even := us;
        odd := vr;
      } else {
        even := vr;
        odd := us;
      }
      ReduceEven(odd, even, k, X, p);
      RegistersPositive(X, p, odd, even, k);
    }
    Inverted(x, X, p, us, vr, odd, even, k);
  }

  /** The parities that the C code asserts after the halving. */
  lemma SourceAssertions(X: int, p: int, odd: Combo, even: Combo, k: nat)
    requires Halved(X, p, odd, even, k)
    ensures odd.a[0] % 2 == 1 && odd.a[8] % 2 == 1 && even.a[0] % 2 == 1 && even.a[8] % 2 == 0
  {
    RegisterParity(odd.a[..], odd.len1);
    RegisterParity(even.a[..], even.len1);
  }

  /** Either assignment of the roles is good for the subtraction that follows. */
  lemma ExchangeIf(X: int, p: int, odd: Combo, even: Combo, k: nat)
    requires Halved(X, p, odd, even, k)
    ensures Invariant(X, p, odd.First(), odd.Second(), even.First(), even.Second(), k)
    ensures Invariant(-X, p, even.First(), even.Second(), odd.First(), odd.Second(), k)
    ensures Bits(odd.First(), even.First(), k) && Bits(even.First(), odd.First(), k)
    ensures odd.First() % 2 == 1 && even.First() % 2 == 1 && (odd.Second() + even.Second()) % 2 == 1
  {
    Exchange(X, p, odd.First(), odd.Second(), even.First(), even.Second(), k);
    ExchangeBits(odd.First(), even.First(), k);
  }

  lemma RegistersPositive(X: int, p: int, odd: Combo, even: Combo, k: nat)
    requires Registers(X, p, odd, even, k)
    ensures odd.First() >= 1 && even.First() >= 1
  {
  }

  lemma Inverted(x: int, X: int, p: int, us: Combo, vr: Combo, odd: Combo, even: Combo, k: nat)
    requires (odd == us && even == vr && X == x) || (odd == vr && even == us && X == -x)
    requires Halved(X, p, odd, even, k) && us.First() == vr.First() && p % 2 == 1
    ensures us.len1 == 1 && k <= 510
    ensures 0 <= High(us.a[..], 1) < p && Cong(x * High(us.a[..], 1), Pow2(k), p)
  {
    Finish(X, p, odd.First(), odd.Second(), even.First(), even.Second(), k);
    FinishBits(k);
    OneWord(us.a[..], us.len1);
  }

  lemma WeightAtLeast(n: nat)
    ensures n == 0 || Weight(D, n) >= D
  {
    if n > 0 {
      Product(D, 1, Weight(D, n - 1));
    }
  }

  lemma OneWord(s: seq<int>, l: nat)
    requires |s| == 9 && 1 <= l <= 8 && Normal(s, D) && s[l - 1] != 0 && Low(s, l) == 1
    ensures l == 1
  {
    TopWord(s, l);
    WeightAtLeast(l - 1);
  }

  lemma ReducedCoprime(x: int, m: int, p: int)
    requires p > 1 && Cong(m, x, p) && Coprime(x, p)
    ensures 0 < m % p < p && Coprime(m % p, p) && Cong(x, m % p, p)
  {
    Residue(m, p);
    Sym(m, x, p);
    Trans(x, m, m % p, p);
    CoprimeCong(x, m % p, p);
    DivMod(m, p);
    if m % p == 0 {
      MultipleDivides(p, 1);
      assert Divides(p, 0) by {
        MultipleDivides(p, 0);
      }
      assert false;
    }
  }

  lemma InverseOfSame(x: int, v: int, y: int, p: int)
    requires p > 0 && Cong(x, v, p) && Cong(v * y, 1, p)
    ensures Cong(x * y, 1, p)
  {
    CongSelf(y, p);
    Mul(x, v, y, y, p);
    Trans(x * y, v * y, 1, p);
  }

  /** The registers as they are filled initially: u = p, s = 1, v = x, r = 0. */
  lemma StartRegisters(v: int, p: int, us: Combo, vr: Combo, pp: array<word>)
    requires us.a.Length == vr.a.Length == 9 && us.a != vr.a && us.len1 == vr.len1 == 8 && pp.Length == 8
    requires Modulus(p) && 0 < v < p && Coprime(v, p)
    requires Sum(us.a[..], 8, D) == Sum(pp[..], 8, D) == p && Sum(vr.a[..], 8, D) == v
    requires us.a[8] == 1 && vr.a[8] == 0
    ensures Registers(v, p, us, vr, 0)
    ensures pp[0] % 2 == 1 && p < Weight(D, 8)
  {
    TopWordNonzero(us.a[..], p);
    OneDigit(us.a[..]);
    OneDigit(vr.a[..]);
    SumParity(pp[..], 8, D);
    WeightsOfWords();
    Start(v, p);
    Pow2Of256();
    StartBits(v, p);
  }

  lemma Pow2Of256()
    ensures Pow2(256) == TWO256
  {
    Pow2Values();
    hide Pow2;
    Pow2Add(32, 32);
    Pow2Add(64, 64);
    Pow2Add(128, 128);
  }

  lemma OneDigit(s: seq<int>)
    requires |s| == 9
    ensures High(s, 8) == s[8]
  {
    assert Sum(Rev(s), 1, D) == Sum(Rev(s), 0, D) + Rev(s)[0] * Weight(D, 0);
  }

  lemma TopWordNonzero(s: seq<word>, p: int)
    requires |s| == 9 && Modulus(p) && Sum(s, 8, D) == p
    ensures s[7] != 0
  {
    SumBound(s, 7, D);
    WeightsOfWords();
    assert Weight(D, 8) == D * Weight(D, 7);
  }

  /** x = 1 / x modulo prime, fully reduced, for any nine words x coprime to the modulus. */
  method BnInverse(x: array<word>, prime: array<word>)
    requires x.Length == 9 && IsModulus(prime) && x != prime && Coprime(Val(x), Val(prime))
    modifies x
    ensures Reduced(x, Val(prime)) && Inverts(Val(x), old(Val(x)), Val(prime))
  {
    hide Low, High, Weight, Sum, Pow2, Cong, Coprime, Registers;
    ghost var p, x0 := Val(prime), Val(x);
    BnFastMod(x, prime);
    ghost var m := Val(x);
    BnMod(x, prime);
    ghost var v := Val(x);
    ReducedCoprime(x0, m, p);
    var pp := new word[8];
    var us := new Combo();
    var vr := new Combo();
    ToWords(prime, pp);
    ToWords(prime, us.a);
    ToWords(x, vr.a);
    ghost var u0, v0 := us.a[..], vr.a[..];
    us.a[8] := 1;
    vr.a[8] := 0;
    SumSame(u0, us.a[..], 8, D);
    SumSame(v0, vr.a[..], 8, D);
    StartRegisters(v, p, us, vr, pp);
    var k := AlmostInvert(us, vr, v, p);
    ghost var s := High(us.a[..], 1);
    DivideOut(us.a, pp, k);
    FromWords(us.a, x);
    Divide(v, s, Val(x), k, p);
    InverseOfSame(x0, v, Val(x), p);
  }
}
