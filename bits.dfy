/** Bit-level vocabulary shared by the PCM decoders and the bit-reversal
    permutation: powers of two (`1 << k`), the bit at a position, and the
    bitwise operators `&`, `|` and `^` on non-negative integers.

    The source applies `&`, `|` and `^` to C# `int`/`long` values that are
    never negative at those points, so the operators are defined here on
    naturals, one bit at a time from the least significant end. */
module Bits {

  /** 2^k, written `1 << k` in the source. */
  function Pow2(k: nat): (r: nat)
    ensures r >= 1
  {
    if k == 0 then 1 else 2 * Pow2(k - 1)
  }

  /** Bit `i` of `x` (0 or 1). */
  function Bit(x: nat, i: nat): (b: nat)
    ensures b <= 1
  {
    if i == 0 then x % 2 else Bit(x / 2, i - 1)
  }

  /** Bitwise `x & y`. */
  function And(x: nat, y: nat): nat
    decreases x + y
  {
    if x == 0 || y == 0 then 0
    else 2 * And(x / 2, y / 2) + (if x % 2 == 1 && y % 2 == 1 then 1 else 0)
  }

  /** Bitwise `x | y`. */
  function Or(x: nat, y: nat): nat
    decreases x + y
  {
    if x == 0 then y
    else if y == 0 then x
    else 2 * Or(x / 2, y / 2) + (if x % 2 == 1 || y % 2 == 1 then 1 else 0)
  }

  /** Bitwise `x ^ y`. */
  function Xor(x: nat, y: nat): nat
    decreases x + y
  {
    if x == 0 then y
    else if y == 0 then x
    else 2 * Xor(x / 2, y / 2) + (if x % 2 == y % 2 then 0 else 1)
  }

  /** `n` is 2^k for some k. */
  predicate IsPow2(n: int)
    decreases if n < 0 then 0 else n
  {
    n == 1 || (n >= 2 && n % 2 == 0 && IsPow2(n / 2))
  }

  /** The exponent of a power of two. */
  function Log2(n: int): (k: nat)
    requires IsPow2(n)
    ensures Pow2(k) == n
    decreases if n < 0 then 0 else n
  {
    if n == 1 then 0 else 1 + Log2(n / 2)
  }

  // ---------------------------------------------------------------------
  // Powers of two

  lemma {:induction false} Pow2Monotone(a: nat, b: nat)
    requires a < b
    ensures Pow2(a) < Pow2(b)
  {
    if a < b - 1 {
      Pow2Monotone(a, b - 1);
    }
  }

  /** A power of two is determined by where it sits between two
      neighbouring powers: the exponent of `n` is the only `l` with
      2^(l-1) < n <= 2^l. */
  lemma Log2Unique(n: int, l: nat)
    requires IsPow2(n)
    requires n <= Pow2(l) && (l == 0 || Pow2(l - 1) < n)
    ensures l == Log2(n)
  {
    var k := Log2(n);
    if l < k {
      Pow2Monotone(l, k);
    } else if l > k {
      if l - 1 > k {
        Pow2Monotone(k, l - 1);
      }
    }
  }

  /** The powers of two the source spells out as shifts. */
  lemma Pow2Values()
    ensures Pow2(7) == 0x80 && Pow2(8) == 0x100 && Pow2(16) == 0x1_0000
    ensures Pow2(24) == 0x100_0000 && Pow2(31) == 0x8000_0000 && Pow2(32) == 0x1_0000_0000
  {
    assert Pow2(8) == 0x100;
    assert Pow2(16) == 0x1_0000;
    assert Pow2(24) == 0x100_0000;
    assert Pow2(32) == 0x1_0000_0000;
  }

  // ---------------------------------------------------------------------
  // Bits of a number

  lemma {:induction false} BitOfZero(i: nat)
    ensures Bit(0, i) == 0
  {
    if i > 0 {
      BitOfZero(i - 1);
    }
  }

  lemma {:induction false} BitOfPow2(m: nat, i: nat)
    ensures Bit(Pow2(m), i) == if i == m then 1 else 0
  {
    if m == 0 {
      if i > 0 {
        BitOfZero(i - 1);
      }
    } else if i > 0 {
      assert Pow2(m) / 2 == Pow2(m - 1);
      BitOfPow2(m - 1, i - 1);
    }
  }

  /** Two numbers below 2^k with the same k low bits are equal. */
  lemma {:induction false} BitsDetermine(x: nat, y: nat, k: nat)
    requires x < Pow2(k) && y < Pow2(k)
    requires forall i :: 0 <= i < k ==> Bit(x, i) == Bit(y, i)
    ensures x == y
  {
    if k > 0 {
      assert Bit(x, 0) == Bit(y, 0);
      forall i | 0 <= i < k - 1
        ensures Bit(x / 2, i) == Bit(y / 2, i)
      {
        assert Bit(x, i + 1) == Bit(y, i + 1);
      }
      BitsDetermine(x / 2, y / 2, k - 1);
    }
  }

  /** Adding 2^K (or nothing) on top of a number below 2^K sets bit K (or
      leaves it clear) and leaves the bits below K alone. */
  lemma {:induction false} BitsOfTopAndLow(top: bool, r: nat, p: nat, K: nat)
    requires r < Pow2(K)
    requires p <= K
    ensures Bit((if top then Pow2(K) else 0) + r, p)
            == if p == K then (if top then 1 else 0) else Bit(r, p)
  {
    var t := if top then Pow2(K) else 0;
    if K == 0 {
    } else if p == 0 {
      assert t % 2 == 0;
    } else {
      assert (t + r) / 2 == (if top then Pow2(K - 1) else 0) + r / 2;
      BitsOfTopAndLow(top, r / 2, p - 1, K - 1);
    }
  }

  // ---------------------------------------------------------------------
  // The bitwise operators, bit by bit

  /** Halving `2q + c` for a bit c gives back q, with remainder c. */
  lemma Halve(q: nat, c: nat)
    requires c <= 1
    ensures (2 * q + c) / 2 == q && (2 * q + c) % 2 == c
  {
  }

  lemma {:induction false} BitXor(x: nat, y: nat, i: nat)
    ensures Bit(Xor(x, y), i) == (Bit(x, i) + Bit(y, i)) % 2
    decreases i
  {
    if x == 0 || y == 0 {
      BitOfZero(i);
    } else {
      var q := Xor(x / 2, y / 2);
      var c := if x % 2 == y % 2 then 0 else 1;
      assert Xor(x, y) == 2 * q + c;
      Halve(q, c);
      if i > 0 {
        BitXor(x / 2, y / 2, i - 1);
      }
    }
  }

  lemma {:induction false} BitOr(x: nat, y: nat, i: nat)
    ensures Bit(Or(x, y), i) == if Bit(x, i) == 1 || Bit(y, i) == 1 then 1 else 0
    decreases i
  {
    if x == 0 || y == 0 {
      BitOfZero(i);
    } else {
      var q := Or(x / 2, y / 2);
      var c := if x % 2 == 1 || y % 2 == 1 then 1 else 0;
      assert Or(x, y) == 2 * q + c;
      Halve(q, c);
      if i > 0 {
        BitOr(x / 2, y / 2, i - 1);
      }
    }
  }

  lemma {:induction false} XorBound(x: nat, y: nat, k: nat)
    requires x < Pow2(k) && y < Pow2(k)
    ensures Xor(x, y) < Pow2(k)
  {
    if k > 0 && x != 0 && y != 0 {
      XorBound(x / 2, y / 2, k - 1);
    }
  }

  lemma {:induction false} OrBound(x: nat, y: nat, k: nat)
    requires x < Pow2(k) && y < Pow2(k)
    ensures Or(x, y) < Pow2(k)
  {
    if k > 0 && x != 0 && y != 0 {
      OrBound(x / 2, y / 2, k - 1);
    }
  }

  /** `(x & (1 << m)) > 0` tests bit m of x. */
  lemma {:induction false} AndPow2(x: nat, m: nat)
    ensures And(x, Pow2(m)) > 0 <==> Bit(x, m) == 1
  {
    if x == 0 {
      BitOfZero(m);
    } else if m > 0 {
      assert Pow2(m) / 2 == Pow2(m - 1);
      AndPow2(x / 2, m - 1);
    }
  }

  /** `x ^ (1 << m)` clears bit m when it is set and sets it otherwise. */
  lemma {:induction false} XorPow2(x: nat, m: nat)
    ensures Xor(x, Pow2(m)) == if Bit(x, m) == 1 then x - Pow2(m) else x + Pow2(m)
  {
    if x == 0 {
      BitOfZero(m);
    } else if m == 0 {
      assert Xor(x / 2, 0) == x / 2;
      Halve(x / 2, x % 2);
    } else {
      var h := Pow2(m - 1);
      var q := x / 2;
      Halve(q, x % 2);
      Halve(h, 0);
      assert Xor(x, 2 * h) == 2 * Xor(q, h) + x % 2;
      XorPow2(q, m - 1);
    }
  }



}
