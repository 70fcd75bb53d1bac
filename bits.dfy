/** Python's shift and bitwise operators (`<<`, `>>`, `&`, `|`, `^`) on
    non-negative integers, defined one bit at a time, with the facts that the
    checksums rely on. Integers are unbounded, as in Python. */
module Bits {

  function Pow2(k: nat): (p: nat)
    ensures p >= 1
  {
    if k == 0 then 1 else 2 * Pow2(k - 1)
  }

  /** The powers of two the checksums use. */
  lemma Pow2Values()
    ensures Pow2(4) == 16 && Pow2(8) == 0x100 && Pow2(12) == 0x1000 && Pow2(16) == 0x10000
  {
    assert Pow2(4) == 16;
    assert Pow2(6) == 64;
    assert Pow2(8) == 0x100;
    assert Pow2(10) == 0x400;
    assert Pow2(12) == 0x1000;
    assert Pow2(14) == 0x4000;
  }

  /** `a << k`. */
  function Shl(a: nat, k: nat): nat {
    if k == 0 then a else 2 * Shl(a, k - 1)
  }

  /** `a >> k`: k halvings, each rounding down. */
  function Shr(a: nat, k: nat): nat {
    if k == 0 then a else Shr(a / 2, k - 1)
  }

  /** `a & b`. */
  function And(a: nat, b: nat): nat
    decreases a
  {
    if a == 0 || b == 0 then 0
    else 2 * And(a / 2, b / 2) + (if a % 2 == 1 && b % 2 == 1 then 1 else 0)
  }

  /** `a | b`. */
  function Or(a: nat, b: nat): nat
    decreases a
  {
    if a == 0 then b
    else if b == 0 then a
    else 2 * Or(a / 2, b / 2) + (if a % 2 == 1 || b % 2 == 1 then 1 else 0)
  }

  /** `a ^ b`. */
  function Xor(a: nat, b: nat): nat
    decreases a
  {
    if a == 0 then b
    else if b == 0 then a
    else 2 * Xor(a / 2, b / 2) + (if a % 2 != b % 2 then 1 else 0)
  }

  /** The number formed by the k lowest bits of a, that is a mod 2^k. */
  function LowBits(a: nat, k: nat): (r: nat)
    ensures r < Pow2(k)
  {
    if k == 0 then 0 else 2 * LowBits(a / 2, k - 1) + a % 2
  }

  // ---------------------------------------------------------------------------
  // Each operator acts on the lowest bit and on the rest separately.

  lemma AndHalf(a: nat, b: nat)
    ensures And(a, b) / 2 == And(a / 2, b / 2)
    ensures And(a, b) % 2 == (if a % 2 == 1 && b % 2 == 1 then 1 else 0)
  {
  }

  lemma OrHalf(a: nat, b: nat)
    ensures Or(a, b) / 2 == Or(a / 2, b / 2)
    ensures Or(a, b) % 2 == (if a % 2 == 1 || b % 2 == 1 then 1 else 0)
  {
  }

  lemma XorHalf(a: nat, b: nat)
    ensures Xor(a, b) / 2 == Xor(a / 2, b / 2)
    ensures Xor(a, b) % 2 == (if a % 2 != b % 2 then 1 else 0)
  {
  }

  // ---------------------------------------------------------------------------
  // Shifts

  /** Shifting left by k multiplies by 2^k. */
  lemma {:induction false} ShlMul(a: nat, k: nat)
    ensures Shl(a, k) == a * Pow2(k)
  {
    if k > 0 {
      ShlMul(a, k - 1);
    }
  }

  /** Two right shifts add up. */
  lemma {:induction false} ShrShr(a: nat, j: nat, k: nat)
    ensures Shr(Shr(a, j), k) == Shr(a, j + k)
    decreases j
  {
    if j > 0 {
      ShrShr(a / 2, j - 1, k);
    }
  }

  /** A number below 2^(j+k) shifted right by j is below 2^k. */
  lemma {:induction false} ShrBound(a: nat, j: nat, k: nat)
    requires a < Pow2(j + k)
    ensures Shr(a, j) < Pow2(k)
    decreases j
  {
    if j > 0 {
      assert Pow2(j + k) == 2 * Pow2(j - 1 + k);
      ShrBound(a / 2, j - 1, k);
    }
  }

  lemma ShrSmall(a: nat, k: nat)
    requires a < Pow2(k)
    ensures Shr(a, k) == 0
  {
    ShrBound(a, k, 0);
  }

  lemma {:induction false} ShrMono(a: nat, b: nat, k: nat)
    requires a <= b
    ensures Shr(a, k) <= Shr(b, k)
    decreases k
  {
    if k > 0 {
      ShrMono(a / 2, b / 2, k - 1);
    }
  }

  /** `(h << k | n) >> k == h` and its low k bits are n, for n below 2^k. */
  lemma {:induction false} ShlSplit(h: nat, n: nat, k: nat)
    requires n < Pow2(k)
    ensures Shr(Shl(h, k) + n, k) == h
    ensures LowBits(Shl(h, k) + n, k) == n
    decreases k
  {
    if k > 0 {
      var x := Shl(h, k) + n;
      assert x / 2 == Shl(h, k - 1) + n / 2 && x % 2 == n % 2;
      ShlSplit(h, n / 2, k - 1);
    }
  }

  // ---------------------------------------------------------------------------
  // Low bits

  /** The lowest bit of `LowBits(a, k)` is that of a; the others are the k - 1
      lowest bits of a / 2. */
  lemma LowBitsHalf(a: nat, k: nat)
    requires k >= 1
    ensures LowBits(a, k) / 2 == LowBits(a / 2, k - 1) && LowBits(a, k) % 2 == a % 2
  {
  }

  lemma {:induction false} LowBitsOfSmall(a: nat, k: nat)
    requires a < Pow2(k)
    ensures LowBits(a, k) == a
    decreases k
  {
    if k > 0 {
      LowBitsOfSmall(a / 2, k - 1);
    }
  }

  /** Keeping the n lowest bits and then the k <= n lowest keeps the k lowest. */
  lemma {:induction false} LowBitsTwice(a: nat, n: nat, k: nat)
    requires k <= n
    ensures LowBits(LowBits(a, n), k) == LowBits(a, k)
    decreases k
  {
    if k > 0 {
      var l := LowBits(a, n);
      assert l / 2 == LowBits(a / 2, n - 1) && l % 2 == a % 2;
      LowBitsTwice(a / 2, n - 1, k - 1);
    }
  }

  /** `a & (2^k - 1)` keeps the k lowest bits. */
  lemma {:induction false} AndMask(a: nat, k: nat)
    ensures And(a, Pow2(k) - 1) == LowBits(a, k)
    decreases k
  {
    if k > 0 {
      var m := Pow2(k) - 1;
      assert m / 2 == Pow2(k - 1) - 1 && m % 2 == 1;
      AndHalf(a, m);
      AndMask(a / 2, k - 1);
      LowBitsHalf(a, k);
    }
  }

  /** The k lowest bits of `a ^ b` are those of the k lowest bits of a and b. */
  lemma {:induction false} XorLowBits(a: nat, b: nat, k: nat)
    ensures LowBits(Xor(a, b), k) == Xor(LowBits(a, k), LowBits(b, k))
    decreases k
  {
    if k > 0 {
      XorHalf(a, b);
      XorLowBits(a / 2, b / 2, k - 1);
      LowBitsHalf(a, k);
      LowBitsHalf(b, k);
      LowBitsHalf(Xor(a, b), k);
      XorHalf(LowBits(a, k), LowBits(b, k));
    }
  }

  /** The k lowest bits of `2 * a` are the k - 1 lowest bits of a, shifted. */
  lemma LowBitsDouble(a: nat, k: nat)
    requires k >= 1
    ensures LowBits(2 * a, k) == 2 * LowBits(a, k - 1)
  {
    assert (2 * a) / 2 == a && (2 * a) % 2 == 0;
  }

  /** Bit k of a number is unchanged by dropping bits above n > k. */
  lemma {:induction false} BitOfLowBits(a: nat, n: nat, k: nat)
    requires k < n
    ensures Shr(LowBits(a, n), k) % 2 == Shr(a, k) % 2
    decreases k
  {
    var l := LowBits(a, n);
    assert l / 2 == LowBits(a / 2, n - 1) && l % 2 == a % 2;
    if k > 0 {
      BitOfLowBits(a / 2, n - 1, k - 1);
    }
  }

  // ---------------------------------------------------------------------------
  // Bounds and masks

  lemma {:induction false} XorBound(a: nat, b: nat, k: nat)
    requires a < Pow2(k) && b < Pow2(k)
    ensures Xor(a, b) < Pow2(k)
    decreases k
  {
    if k > 0 && a > 0 && b > 0 {
      XorBound(a / 2, b / 2, k - 1);
    }
  }

  lemma {:induction false} AndAtMost(a: nat, b: nat)
    ensures And(a, b) <= b
    decreases a
  {
    if a > 0 && b > 0 {
      AndAtMost(a / 2, b / 2);
    }
  }

  /** `a & (m << k) == (a >> k & m) << k`. */
  lemma {:induction false} AndShl(a: nat, m: nat, k: nat)
    ensures And(a, Shl(m, k)) == Shl(And(Shr(a, k), m), k)
    decreases k
  {
    if k > 0 {
      var s := Shl(m, k);
      assert s / 2 == Shl(m, k - 1) && s % 2 == 0;
      AndHalf(a, s);
      AndShl(a / 2, m, k - 1);
    }
  }

  /** `(h << k) | n == (h << k) + n` for n below 2^k: the bits do not overlap. */
  lemma {:induction false} OrShl(h: nat, n: nat, k: nat)
    requires n < Pow2(k)
    ensures Or(Shl(h, k), n) == Shl(h, k) + n
    decreases k
  {
    if k > 0 {
      var s := Shl(h, k);
      assert s / 2 == Shl(h, k - 1) && s % 2 == 0;
      OrHalf(s, n);
      OrShl(h, n / 2, k - 1);
      var x := s + n;
      assert x / 2 == Shl(h, k - 1) + n / 2 && x % 2 == n % 2;
    }
  }

  /** `a & (1 << k)` is non-zero exactly when bit k of a is set. */
  lemma {:induction false} AndPow2(a: nat, k: nat)
    ensures And(a, Pow2(k)) != 0 <==> Shr(a, k) % 2 == 1
    decreases k
  {
    if k > 0 {
      var p := Pow2(k);
      assert p / 2 == Pow2(k - 1) && p % 2 == 0;
      AndHalf(a, p);
      AndPow2(a / 2, k - 1);
    }
  }
}
