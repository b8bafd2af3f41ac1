/** Fixed-width unsigned machine words as bounded integers, and the bit operations of C on them.
    Assigning to a variable of type `word` or `dword` is an obligation that the exact integer result fits,
    so that no C expression modelled by a plain `+` or `*` wraps around.  Where the C code relies on the
    wrap-around it is written out with `Wrap32`. */
module Words {
  const TWO32: int := 0x1_0000_0000
  const TWO64: int := 0x1_0000_0000_0000_0000

  type byte = x: int | 0 <= x < 0x100
  type word = x: int | 0 <= x < 0x1_0000_0000
  type dword = x: int | 0 <= x < 0x1_0000_0000_0000_0000

  function Wrap32(x: int): (r: word)
  {
    x % TWO32
  }

  function Pow2(n: nat): (r: nat)
    ensures r > 0
  {
    if n == 0 then 1 else 2 * Pow2(n - 1)
  }

  lemma {:induction false} Pow2Add(m: nat, n: nat)
    ensures Pow2(m + n) == Pow2(m) * Pow2(n)
  {
    if m == 0 {
    } else {
      Pow2Add(m - 1, n);
      assert Pow2(m + n) == 2 * Pow2(m - 1 + n);
      assert (2 * Pow2(m - 1)) * Pow2(n) == 2 * (Pow2(m - 1) * Pow2(n));
    }
  }

  lemma {:induction false} Pow2Mono(m: nat, n: nat)
    requires m <= n
    ensures Pow2(m) <= Pow2(n)
    decreases n
  {
    if m < n {
      Pow2Mono(m, n - 1);
    }
  }

  /** x << n on 32 bits: the bits shifted out are lost. */
  function Shl32(x: word, n: nat): (r: word)
  {
    Wrap32(x * Pow2(n))
  }

  /** x >> n. */
  function Shr(x: nat, n: nat): (r: nat)
    ensures r <= x
  {
    QuotientBound(x, Pow2(n));
    x / Pow2(n)
  }

  lemma QuotientBound(x: nat, d: nat)
    requires d > 0
    ensures 0 <= x / d <= x
  {
    DivMod(x, d);
    if x / d < 0 {
      Product(d, x / d, -1);
      assert false;
    } else {
      Product(x / d, 1, d);
    }
  }

  lemma Product(c: nat, a: int, b: int)
    requires a <= b
    ensures c * a <= c * b && a * c <= b * c
  {
  }

  lemma ProductBound(x: nat, y: nat, m: nat, n: nat)
    requires x <= m && y <= n
    ensures 0 <= x * y <= m * n
  {
    Product(x, y, n);
    Product(n, x, m);
  }

  lemma ProductBelow(x: nat, y: nat, w: nat)
    requires x < w && y < w
    ensures 0 <= x * y < w * w
  {
    ProductBound(x, y, w - 1, w - 1);
    assert (w - 1) * (w - 1) == w * w - 2 * w + 1;
  }

  lemma Distribute(v: int, a: int, w: int, u: int)
    ensures (v + a * w) * u == v * u + a * (w * u) == v * u + a * (u * w)
  {
    assert (v + a * w) * u == v * u + (a * w) * u;
    assert (a * w) * u == a * (w * u);
  }

  lemma DivMod(x: int, d: int)
    requires d > 0
    ensures x == d * (x / d) + x % d == (x / d) * d + x % d
    ensures 0 <= x % d < d
  {
  }

  /** Quotient and remainder are the only way to split x. */
  lemma DivModUnique(x: int, d: int, q: int, r: int)
    requires d > 0 && 0 <= r < d && x == q * d + r
    ensures x / d == q && x % d == r
  {
    DivMod(x, d);
    var e := x / d - q;
    assert e * d == r - x % d;
    if e > 0 {
      Product(d, 1, e);
      assert false;
    } else if e < 0 {
      Product(d, e, -1);
      assert false;
    }
  }

  function Bit(x: nat): (b: nat)
    ensures b <= 1
  {
    x % 2
  }

  function And(x: nat, y: nat): nat
  {
    if x == 0 || y == 0 then 0 else Bit(x) * Bit(y) + 2 * And(x / 2, y / 2)
  }

  function Or(x: nat, y: nat): nat
  {
    if x == 0 then y else if y == 0 then x
    else (if Bit(x) == 1 || Bit(y) == 1 then 1 else 0) + 2 * Or(x / 2, y / 2)
  }

  function Xor(x: nat, y: nat): nat
  {
    if x == 0 then y else if y == 0 then x
    else (if Bit(x) != Bit(y) then 1 else 0) + 2 * Xor(x / 2, y / 2)
  }

  lemma Pow2Values()
    ensures Pow2(8) == 0x100 && Pow2(16) == 0x1_0000 && Pow2(30) == 0x4000_0000
    ensures Pow2(32) == 0x1_0000_0000
  {
    assert Pow2(8) == 0x100;
    Pow2Add(8, 8);
    Pow2Add(16, 16);
    assert Pow2(14) == 0x4000;
    Pow2Add(14, 16);
  }

  /** The lowest bit of a quotient and remainder by 2h. */
  lemma HalveDivMod(x: nat, h: nat)
    requires h > 0
    ensures x % (2 * h) == 2 * (x / 2 % h) + x % 2
  {
    DivMod(x / 2, h);
    var q, r := x / 2 / h, x / 2 % h;
    assert q * (2 * h) == 2 * (q * h);
    DivModUnique(x, 2 * h, q, 2 * r + x % 2);
  }

  /** Masking with n ones keeps the n low bits. */
  lemma {:induction false} AndMask(x: nat, n: nat)
    ensures And(x, Pow2(n) - 1) == x % Pow2(n)
  {
    if n > 0 && x > 0 {
      AndMask(x / 2, n - 1);
      HalveDivMod(x, Pow2(n - 1));
    } else if x == 0 {
      DivModUnique(0, Pow2(n), 0, 0);
    }
  }

  /** OR of numbers with no bit in common is their sum. */
  lemma {:induction false} OrDisjoint(x: nat, y: nat, n: nat)
    requires x < Pow2(n) && y % Pow2(n) == 0
    ensures Or(x, y) == x + y == Or(y, x)
  {
    if n > 0 && x > 0 && y > 0 {
      var h := Pow2(n - 1);
      DivMod(y, 2 * h);
      var q := y / (2 * h);
      assert y == 2 * (q * h);
      assert y / 2 == q * h;
      DivModUnique(y / 2, h, q, 0);
      OrDisjoint(x / 2, y / 2, n - 1);
    }
  }

  lemma {:induction false} OrCommutes(x: nat, y: nat)
    ensures Or(x, y) == Or(y, x)
  {
    if x > 0 && y > 0 {
      OrCommutes(x / 2, y / 2);
    }
  }

  lemma {:induction false} OrBound(x: nat, y: nat, n: nat)
    requires x < Pow2(n) && y < Pow2(n)
    ensures Or(x, y) < Pow2(n)
  {
    if n > 0 && x > 0 && y > 0 {
      OrBound(x / 2, y / 2, n - 1);
    }
  }

  lemma {:induction false} OrZero(x: nat, y: nat)
    ensures Or(x, y) == 0 <==> x == 0 && y == 0
  {
    if x > 0 && y > 0 {
      OrZero(x / 2, y / 2);
    }
  }

  lemma {:induction false} XorZero(x: nat, y: nat)
    ensures Xor(x, y) == 0 <==> x == y
  {
    if x > 0 && y > 0 {
      XorZero(x / 2, y / 2);
    }
  }

  lemma {:induction false} XorBound(x: nat, y: nat, n: nat)
    requires x < Pow2(n) && y < Pow2(n)
    ensures Xor(x, y) < Pow2(n)
  {
    if n > 0 && x > 0 && y > 0 {
      XorBound(x / 2, y / 2, n - 1);
    }
  }

  /** XOR with n ones complements the n low bits. */
  lemma {:induction false} XorOnes(x: nat, n: nat)
    requires x < Pow2(n)
    ensures Xor(x, Pow2(n) - 1) == Pow2(n) - 1 - x
  {
    if n > 0 && x > 0 {
      var y := Pow2(n) - 1;
      var h := Pow2(n - 1);
      assert y == 2 * h - 1;
      assert y / 2 == h - 1 && y % 2 == 1;
      XorOnes(x / 2, n - 1);
      assert Xor(x, y) == (if x % 2 != 1 then 1 else 0) + 2 * Xor(x / 2, h - 1);
    }
  }

  // ----- bit by bit

  /** Bit i of x. */
  ghost function BitAt(x: nat, i: nat): nat
  {
    x / Pow2(i) % 2
  }

  lemma BitAtNext(x: nat, i: nat)
    ensures BitAt(x, i + 1) == BitAt(x / 2, i) && BitAt(x, 0) == x % 2
  {
    var h := Pow2(i);
    assert Pow2(i + 1) == 2 * h && Pow2(0) == 1;
    hide Pow2;
    HalveDivMod(x, h);
    DivMod(x / 2, h);
    assert x / 2 / h * (2 * h) == 2 * (x / 2 / h * h);
    DivModUnique(x, 2 * h, x / 2 / h, x % (2 * h));
    DivModUnique(x, 1, x, 0);
  }

  lemma {:induction false} AndBits(x: nat, y: nat, i: nat)
    ensures BitAt(And(x, y), i) == if BitAt(x, i) == 1 && BitAt(y, i) == 1 then 1 else 0
  {
    hide And, BitAt;
    AndHalves(x, y);
    BitsOfNext(x, y, And(x, y), i);
    if i > 0 {
      AndBits(x / 2, y / 2, i - 1);
    }
  }

  lemma {:induction false} OrBits(x: nat, y: nat, i: nat)
    ensures BitAt(Or(x, y), i) == if BitAt(x, i) == 1 || BitAt(y, i) == 1 then 1 else 0
  {
    hide Or, BitAt;
    OrHalves(x, y);
    BitsOfNext(x, y, Or(x, y), i);
    if i > 0 {
      OrBits(x / 2, y / 2, i - 1);
    }
  }

  lemma {:induction false} XorBits(x: nat, y: nat, i: nat)
    ensures BitAt(Xor(x, y), i) == if BitAt(x, i) != BitAt(y, i) then 1 else 0
  {
    hide Xor, BitAt;
    XorHalves(x, y);
    BitsOfNext(x, y, Xor(x, y), i);
    if i > 0 {
      XorBits(x / 2, y / 2, i - 1);
    }
  }

  lemma BitsOfNext(x: nat, y: nat, z: nat, i: nat)
    ensures BitAt(x, 0) == x % 2 && BitAt(y, 0) == y % 2 && BitAt(z, 0) == z % 2
    ensures i > 0 ==> BitAt(x, i) == BitAt(x / 2, i - 1)
    ensures i > 0 ==> BitAt(y, i) == BitAt(y / 2, i - 1)
    ensures i > 0 ==> BitAt(z, i) == BitAt(z / 2, i - 1)
  {
    hide BitAt;
    var j := if i > 0 then i - 1 else 0;
    BitAtNext(x, j);
    BitAtNext(y, j);
    BitAtNext(z, j);
  }

  lemma AndHalves(x: nat, y: nat)
    ensures And(x, y) == (if x % 2 == 1 && y % 2 == 1 then 1 else 0) + 2 * And(x / 2, y / 2)
  {
    hide And;
    AndUnfolded(x, y);
    AndUnfolded(x / 2, y / 2);
    BitProduct(Bit(x), Bit(y));
  }

  lemma AndUnfolded(x: nat, y: nat)
    ensures And(x, y) == if x == 0 || y == 0 then 0 else Bit(x) * Bit(y) + 2 * And(x / 2, y / 2)
  {
  }

  lemma BitProduct(a: nat, b: nat)
    requires a <= 1 && b <= 1
    ensures a * b == if a == 1 && b == 1 then 1 else 0
  {
  }

  lemma OrHalves(x: nat, y: nat)
    ensures Or(x, y) == (if x % 2 == 1 || y % 2 == 1 then 1 else 0) + 2 * Or(x / 2, y / 2)
  {
  }

  // ----- XOR on parts of numbers

  /** X and U, cut into n low bits and the rest. */
  lemma {:induction false} XorSplit(X: nat, U: nat, x: nat, u: nat, y: nat, v: nat, n: nat)
    requires x < Pow2(n) && u < Pow2(n) && X == x + Pow2(n) * y && U == u + Pow2(n) * v
    ensures Xor(X, U) == Xor(x, u) + Pow2(n) * Xor(y, v)
    decreases n
  {
    if n > 0 {
      var h := Pow2(n - 1);
      assert Pow2(n) == 2 * h;
      hide Xor, Pow2;
      XorHalves(x, u);
      XorHalves(X, U);
      HalfSplit(x, h, y);
      HalfSplit(u, h, v);
      XorSplit(X / 2, U / 2, x / 2, u / 2, y, v, n - 1);
      Factored(h, Xor(y, v));
    } else {
      assert Pow2(0) == 1;
      assert Xor(0, 0) == 0;
    }
  }

  lemma Factored(h: int, z: int)
    ensures (2 * h) * z == 2 * (h * z)
  {
  }

  lemma HalfSplit(x: nat, h: nat, y: nat)
    ensures (x + (2 * h) * y) / 2 == x / 2 + h * y && (x + (2 * h) * y) % 2 == x % 2
  {
    assert (2 * h) * y == 2 * (h * y);
    DivModUnique(x + 2 * (h * y), 2, x / 2 + h * y, x % 2);
  }

  lemma XorHalves(x: nat, y: nat)
    ensures Xor(x, y) == (if x % 2 != y % 2 then 1 else 0) + 2 * Xor(x / 2, y / 2)
  {
  }

  lemma {:induction false} XorTwice(x: nat, y: nat)
    ensures Xor(Xor(x, y), y) == x
    decreases x + y
  {
    if x > 0 || y > 0 {
      hide Xor;
      XorHalves(x, y);
      XorHalves(Xor(x, y), y);
      XorTwice(x / 2, y / 2);
      assert Xor(x, y) / 2 == Xor(x / 2, y / 2);
    }
  }

  /** XOR works on the n low bits and on the rest. */
  lemma XorDivMod(x: nat, y: nat, n: nat)
    ensures Shr(Xor(x, y), n) == Xor(Shr(x, n), Shr(y, n))
    ensures Xor(x, y) % Pow2(n) == Xor(x % Pow2(n), y % Pow2(n))
  {
    hide Xor, Pow2;
    var q, r := CutAt(x, Pow2(n));
    var q', r' := CutAt(y, Pow2(n));
    XorSplit(x, y, r, r', q, q', n);
    XorBound(r, r', n);
    Rejoin(Xor(x, y), Pow2(n), Xor(q, q'), Xor(r, r'));
  }

  lemma CutAt(x: nat, d: nat) returns (q: nat, r: nat)
    requires d > 0
    ensures x == r + d * q && r < d && q == x / d && r == x % d
  {
    DivMod(x, d);
    QuotientBound(x, d);
    q, r := x / d, x % d;
  }

  lemma Rejoin(x: nat, d: nat, q: nat, r: nat)
    requires r < d && x == r + d * q
    ensures x / d == q && x % d == r
  {
    DivModUnique(x, d, q, r);
  }
}
