/** Hashing a message that arrives in pieces: what the buffer and the running state of sha2.c and sha3.c stand for. */
module Streaming {
  import opened Words

  /** The state after the blocks of m, b bytes each, have been fed to step one after the other. */
  ghost function Absorb<S>(step: (S, seq<byte>) -> S, iv: S, m: seq<byte>, b: nat): S
    requires b > 0
  {
    if |m| < b then iv else step(Absorb(step, iv, m[..|m| - b], b), m[|m| - b..])
  }

  /** The part of m that fills whole blocks, and the rest. */
  ghost function Full(m: seq<byte>, b: nat): (f: seq<byte>)
    requires b > 0
    ensures |f| + |m| % b == |m|
  {
    DivMod(|m|, b);
    ModBound(|m|, b);
    m[..|m| - |m| % b]
  }

  ghost function Tail(m: seq<byte>, b: nat): (t: seq<byte>)
    requires b > 0
    ensures |t| == |m| % b && Full(m, b) + t == m
  {
    ModBound(|m|, b);
    m[|m| - |m| % b..]
  }

  lemma ModBound(n: nat, b: nat)
    requires b > 0
    ensures 0 <= n % b < b && n % b <= n
  {
    DivMod(n, b);
    QuotientBound(n, b);
    Product(b, 0, n / b);
  }

  /** state and buffer are what is left of the message m: it no longer matters in which pieces it came. */
  ghost predicate Streamed<S(!new)>(step: (S, seq<byte>) -> S, iv: S, m: seq<byte>, b: nat, state: S, buffer: seq<byte>)
  {
    && b > 0 && |buffer| >= b && state == Absorb(step, iv, Full(m, b), b)
    && (ModBound(|m|, b); buffer[..|m| % b] == Tail(m, b))
  }

  lemma ModAdd(n: nat, x: nat, b: nat)
    requires b > 0 && n % b + x <= b
    ensures (n + x) % b == if n % b + x < b then n % b + x else 0
  {
    DivMod(n, b);
    if n % b + x < b {
      DivModUnique(n + x, b, n / b, n % b + x);
    } else {
      assert n / b * b + b == (n / b + 1) * b;
      DivModUnique(n + x, b, n / b + 1, 0);
    }
  }

  lemma Start<S(!new)>(step: (S, seq<byte>) -> S, iv: S, b: nat, buffer: seq<byte>)
    requires b > 0 && |buffer| >= b
    ensures Streamed(step, iv, [], b, iv, buffer) && 0 % b == 0
  {
    DivModUnique(0, b, 0, 0);
  }

  /** A piece that does not fill the buffer is appended to it. */
  lemma Extend<S(!new)>(step: (S, seq<byte>) -> S, iv: S, m: seq<byte>, b: nat, state: S, buffer: seq<byte>,
                        x: seq<byte>, buffer': seq<byte>)
    requires Streamed(step, iv, m, b, state, buffer) && |m| % b + |x| < b && |buffer'| == |buffer| >= b
    requires 0 <= |m| % b && buffer'[..|m| % b] == buffer[..|m| % b] && buffer'[|m| % b..|m| % b + |x|] == x
    ensures Streamed(step, iv, m + x, b, state, buffer')
  {
    ModAdd(|m|, |x|, b);
    assert Full(m + x, b) == Full(m, b);
    assert Tail(m + x, b) == Tail(m, b) + x;
    assert buffer'[..|m| % b + |x|] == buffer'[..|m| % b] + x;
  }

  /** A piece that fills the buffer completes a block. */
  lemma Complete<S(!new)>(step: (S, seq<byte>) -> S, iv: S, m: seq<byte>, b: nat, state: S, buffer: seq<byte>,
                          x: seq<byte>, block: seq<byte>, buffer': seq<byte>)
    requires Streamed(step, iv, m, b, state, buffer) && |m| % b + |x| == b && |buffer'| >= b
    requires 0 <= |m| % b <= |buffer| && block == buffer[..|m| % b] + x
    ensures Streamed(step, iv, m + x, b, step(state, block), buffer')
  {
    ModAdd(|m|, |x|, b);
    assert m + x == Full(m, b) + block;
    assert Full(m + x, b) == m + x;
    assert (m + x)[..|m + x| - b] == Full(m, b);
    assert (m + x)[|m + x| - b..] == block;
    assert Tail(m + x, b) == [];
  }

  lemma AllAbsorbed<S(!new)>(step: (S, seq<byte>) -> S, iv: S, m: seq<byte>, b: nat, state: S, buffer: seq<byte>)
    requires Streamed(step, iv, m, b, state, buffer) && |m| % b == 0
    ensures state == Absorb(step, iv, m, b)
  {
    assert Full(m, b) == m;
  }

  /** Whole blocks can be absorbed in two goes. */
  lemma {:induction false} AbsorbAppend<S>(step: (S, seq<byte>) -> S, iv: S, m: seq<byte>, x: seq<byte>, b: nat)
    requires b > 0 && |x| % b == 0 && |m| % b == 0
    ensures Absorb(step, iv, m + x, b) == Absorb(step, Absorb(step, iv, m, b), x, b)
    decreases |x|
  {
    if x == [] {
      assert m + x == m;
    } else {
      BlockFits(|x|, b);
      var y := x[..|x| - b];
      AbsorbAppend(step, iv, m, y, b);
      assert (m + x)[..|m + x| - b] == m + y;
      assert (m + x)[|m + x| - b..] == x[|x| - b..];
    }
  }

  lemma BlockFits(n: nat, b: nat)
    requires b > 0 && n > 0 && n % b == 0
    ensures n >= b && (n - b) % b == 0
  {
    DivMod(n, b);
    if n / b <= 0 {
      Product(b, n / b, 0);
      assert false;
    }
    Product(b, 1, n / b);
    assert (n / b - 1) * b == n / b * b - b;
    DivModUnique(n - b, b, n / b - 1, 0);
  }

  // ----- sequences of bytes

  ghost function Zeros(n: nat): (s: seq<byte>)
    ensures |s| == n
  {
    seq(n, i => 0)
  }

  /** Taking bytes i..j of data after the first i. */
  lemma Advance(m: seq<byte>, data: seq<byte>, i: nat, j: nat)
    requires i <= j <= |data|
    ensures (m + data[..i]) + data[i..j] == m + data[..j]
    ensures j == 0 ==> m + data[..j] == m
    ensures j == |data| ==> data[i..j] == data[i..] && m + data[..j] == m + data
  {
  }

  ghost function Concat(pieces: seq<seq<byte>>): (m: seq<byte>)
  {
    if pieces == [] then [] else Concat(pieces[..|pieces| - 1]) + pieces[|pieces| - 1]
  }

  lemma ConcatStep(pieces: seq<seq<byte>>, i: nat)
    requires i < |pieces|
    ensures Concat(pieces[..i + 1]) == Concat(pieces[..i]) + pieces[i]
  {
    assert pieces[..i + 1][..i] == pieces[..i];
  }

  lemma ConcatEnds(pieces: seq<seq<byte>>)
    ensures Concat(pieces[..0]) == [] && Concat(pieces[..|pieces|]) == Concat(pieces)
  {
    assert pieces[..0] == [] && pieces[..|pieces|] == pieces;
  }

  lemma CopyDone<T>(a: array<T>, s: seq<T>)
    requires a.Length == |s| && forall i :: 0 <= i < |s| ==> a[i] == s[i]
    ensures a[..] == s
  {
  }
}
