/** Numbers as rows of bits, the most significant one first. */
module Bits {
  function Pow2(n: nat): (p: nat)
    ensures p > 0
  {
    if n == 0 then 1 else 2 * Pow2(n - 1)
  }

  /** The n lowest bits of a number. */
  function BitsOf(v: nat, n: nat): (bits: seq<bool>)
    ensures |bits| == n
  {
    if n == 0 then [] else BitsOf(v / 2, n - 1) + [v % 2 == 1]
  }

  /** Halving takes the lowest bit away from the part inside a block. */
  lemma HalfSplit(v: nat, block: nat, q: nat, r: nat)
    requires v == q * (2 * block) + r && r < 2 * block
    ensures v / 2 == q * block + r / 2 && r / 2 < block && v % 2 == r % 2
  {
    assert q * (2 * block) == 2 * (q * block);
  }

  /** How many whole blocks there are, and what is left over. */
  function Quotient(v: nat, block: nat): nat
    requires block > 0
  {
    v / block
  }

  function Rest(v: nat, block: nat): (r: nat)
    requires block > 0
    ensures r < block && v == Quotient(v, block) * block + r
  {
    v % block
  }

  lemma QuotientIs(v: nat, q: nat, block: nat, r: nat)
    requires r < block && v == q * block + r
    ensures v / block == q && v % block == r
  {
    var gap := q - v / block;
    assert gap * block == q * block - v / block * block;
    ProductSign(gap, block);
  }

  lemma ProductSign(g: int, size: nat)
    requires size > 0
    ensures g >= 1 ==> g * size >= size
    ensures g <= -1 ==> g * size + size <= 0
  {
    assert (g - 1) * size == g * size - size;
    assert (g + 1) * size == g * size + size;
  }

  /** The bits of q blocks and r more are those of q and then those of r. */
  lemma {:induction false} BitsSplit(v: nat, m: nat, n: nat, q: nat, r: nat)
    requires v == q * Pow2(n) + r && r < Pow2(n)
    ensures BitsOf(v, m + n) == BitsOf(q, m) + BitsOf(r, n)
    decreases n
  {
    if n > 0 {
      HalfSplit(v, Pow2(n - 1), q, r);
      BitsSplit(v / 2, m, n - 1, q, r / 2);
      var upper, lower, last := BitsOf(q, m), BitsOf(r / 2, n - 1), [r % 2 == 1];
      assert BitsOf(v, m + n) == BitsOf(v / 2, m + n - 1) + last;
      assert upper + lower + last == upper + (lower + last);
    }
  }

  /** So many bits determine a number below the power of two. */
  lemma {:induction false} BitsInjective(a: nat, b: nat, n: nat)
    requires a < Pow2(n) && b < Pow2(n) && BitsOf(a, n) == BitsOf(b, n)
    ensures a == b
  {
    if n > 0 {
      var x, y := BitsOf(a / 2, n - 1), BitsOf(b / 2, n - 1);
      assert x == BitsOf(a, n)[..n - 1] && y == BitsOf(b, n)[..n - 1];
      assert BitsOf(a, n)[n - 1] == (a % 2 == 1) && BitsOf(b, n)[n - 1] == (b % 2 == 1);
      BitsInjective(a / 2, b / 2, n - 1);
    }
  }

  lemma {:induction false} PowersMultiply(m: nat, n: nat)
    ensures Pow2(m + n) == Pow2(m) * Pow2(n)
    decreases n
  {
    if n > 0 {
      PowersMultiply(m, n - 1);
      assert Pow2(m) * (2 * Pow2(n - 1)) == 2 * (Pow2(m) * Pow2(n - 1));
    }
  }

  /** The part of a number above a block is as small as it has bits there. */
  lemma UpperPartFits(v: nat, m: nat, n: nat, q: nat, r: nat)
    requires v < Pow2(m + n) && v == q * Pow2(n) + r
    ensures q < Pow2(m)
  {
    PowersMultiply(m, n);
    if q >= Pow2(m) {
      Monotone(Pow2(m), q, Pow2(n));
    }
  }

  lemma Monotone(x: nat, y: nat, factor: nat)
    requires x <= y
    ensures x * factor <= y * factor
  {
  }

  lemma PowersOfWidths()
    ensures Pow2(8) == 0x100 && Pow2(16) == 0x1_0000 && Pow2(32) == 0x1_0000_0000
    ensures Pow2(128) == 0x1_0000_0000_0000_0000_0000_0000_0000_0000
  {
    hide Pow2;
    SmallPowers();
    PowersMultiply(4, 4);
    PowersMultiply(8, 8);
    PowersMultiply(16, 16);
    PowersMultiply(32, 32);
    PowersMultiply(64, 64);
  }

  lemma SmallPowers()
    ensures Pow2(2) == 4 && Pow2(4) == 16 && Pow2(6) == 64
  {
    assert Pow2(3) == 8;
    assert Pow2(5) == 32;
  }

  lemma {:induction false} ZeroBits(n: nat)
    ensures BitsOf(0, n) == seq(n, _ => false)
  {
    if n > 0 {
      ZeroBits(n - 1);
      assert seq(n, _ => false) == seq(n - 1, _ => false) + [false];
    }
  }
}
