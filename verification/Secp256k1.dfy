/** The constants of secp256k1.c meet what the arithmetic assumes of a curve. */
module Secp256k1 {
  import opened Digits
  import opened BignumBasics
  import opened EllipticCurve
  import opened CurveEquation

  const PRIME: seq<int> := [0x3ffffc2f, 0x3ffffffb, 0x3fffffff, 0x3fffffff, 0x3fffffff, 0x3fffffff, 0x3fffffff,
      0x3fffffff, 0xffff]
  const ORDER: seq<int> := [0x10364141, 0x3f497a33, 0x348a03bb, 0x2bb739ab, 0x3ffffeba, 0x3fffffff, 0x3fffffff,
      0x3fffffff, 0xffff]
  const ORDER_HALF: seq<int> := [0x281b20a0, 0x3fa4bd19, 0x3a4501dd, 0x15db9cd5, 0x3fffff5d, 0x3fffffff, 0x3fffffff,
      0x3fffffff, 0x7fff]
  const G_X: seq<int> := [0x16f81798, 0x27ca056c, 0x1ce28d95, 0x26ff36cb, 0x70b0702, 0x18a573a, 0xbbac55a, 0x199fbe77,
      0x79be]
  const G_Y: seq<int> := [0x3b10d4b8, 0x311f423f, 0x28554199, 0x5ed1229, 0x1108a8fd, 0x13eff038, 0x3c4655da,
      0x369dc9a8, 0x483a]
  const A: int := 0
  const B: int := 7

  const P: int := TWO256 - 0x1_0000_03D1
  const N: int := 0xfffffffffffffffffffffffffffffffebaaedce6af48a03bbfd25e8cd0364141
  const N_HALF: int := 0x7fffffffffffffffffffffffffffffff5d576e7357a4501ddfe92f46681b20a0
  const X: int := 0x79be667ef9dcbbac55a06295ce870b07029bfcdb2dce28d959f2815b16f81798
  const Y: int := 0x483ada7726a3c4655da4fbfc0e1108a8fd17b448a68554199c47d08ffb10d4b8

  /** The limbs spell 2^256 - 2^32 - 977, the order of the group and half of it, and a base point. */
  lemma Limbs()
    ensures Sum(PRIME, 9, BASE) == P && Sum(ORDER, 9, BASE) == N && Sum(ORDER_HALF, 9, BASE) == N_HALF
    ensures Sum(G_X, 9, BASE) == X && Sum(G_Y, 9, BASE) == Y
  {
    PrimeValue();
    OrderValue();
    HalfValue();
    GeneratorX();
    GeneratorY();
  }

  /** Both moduli are odd and within 2^224 of 2^256; the base point is on the curve; and b is not divisible by p,
      so that (0, 0) may stand for infinity. */
  lemma Parameters()
    ensures Modulus(P) && Modulus(N) && 2 * N_HALF + 1 == N
    ensures InField(Affine(X, Y), P) && OnCurve(Affine(X, Y), A, B, P)
    ensures B % P != 0 && -A <= PRIME[0]
  {
  }

  lemma PrimeValue()
    ensures Sum(PRIME, 9, BASE) == P
  {
    hide Sum, Weight;
    Expand(PRIME);
  }

  lemma OrderValue()
    ensures Sum(ORDER, 9, BASE) == N
  {
    hide Sum, Weight;
    Expand(ORDER);
  }

  lemma HalfValue()
    ensures Sum(ORDER_HALF, 9, BASE) == N_HALF
  {
    hide Sum, Weight;
    Expand(ORDER_HALF);
  }

  lemma GeneratorX()
    ensures Sum(G_X, 9, BASE) == X
  {
    hide Sum, Weight;
    Expand(G_X);
  }

  lemma GeneratorY()
    ensures Sum(G_Y, 9, BASE) == Y
  {
    hide Sum, Weight;
    Expand(G_Y);
  }
}
