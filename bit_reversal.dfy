/** The index-reordering phase of the iterative radix-2 FFT in
    `BackgroundWorker`: `Reverse`, which reverses the low `lg_n` bits of an
    index, and the two in-place swap loops that open `FFTInPlaceSlow` (built
    on `Reverse`) and `FFTInPlaceFast` (an incrementally maintained reversed
    index). No element value is computed in this phase, so the buffer's
    element type is left generic. */
module BitReversal {
  import opened Bits

  /** The number whose k low bits are those of `x` in reverse order: bit 0
      of `x` moves to position k - 1, and so on. Bits of `x` at position k
      and above are ignored. */
  function BitRev(x: nat, k: nat): (r: nat)
    ensures r < Pow2(k)
  {
    if k == 0 then 0
    else (if x % 2 == 1 then Pow2(k - 1) else 0) + BitRev(x / 2, k - 1)
  }

  /** Bit k-1-i of the reversal is bit i of the input. */
  lemma {:induction false} BitRevBit(x: nat, k: nat, i: nat)
    requires i < k
    ensures Bit(BitRev(x, k), k - 1 - i) == Bit(x, i)
  {
    var top := x % 2 == 1;
    var low := BitRev(x / 2, k - 1);
    assert BitRev(x, k) == (if top then Pow2(k - 1) else 0) + low;
    BitsOfTopAndLow(top, low, k - 1 - i, k - 1);
    if i > 0 {
      BitRevBit(x / 2, k - 1, i - 1);
    }
  }

  /** Reversing the k low bits twice gives back every number below 2^k. */
  lemma BitRevInvolution(x: nat, k: nat)
    requires x < Pow2(k)
    ensures BitRev(BitRev(x, k), k) == x
  {
    var y := BitRev(BitRev(x, k), k);
    forall i | 0 <= i < k
      ensures Bit(y, i) == Bit(x, i)
    {
      BitRevBit(BitRev(x, k), k, k - 1 - i);
      BitRevBit(x, k, i);
    }
    BitsDetermine(y, x, k);
  }

  lemma {:induction false} BitRevZero(k: nat)
    ensures BitRev(0, k) == 0
  {
    if k > 0 {
      BitRevZero(k - 1);
    }
  }

  /** Toggling bit m of x toggles bit k-1-m of its reversal: bit by bit. */
  lemma BitRevToggleBit(x: nat, k: nat, m: nat, i: nat)
    requires m < k && i < k
    ensures Bit(BitRev(Xor(x, Pow2(m)), k), i) == Bit(Xor(BitRev(x, k), Pow2(k - 1 - m)), i)
  {
    BitRevBit(Xor(x, Pow2(m)), k, k - 1 - i);
    BitXor(x, Pow2(m), k - 1 - i);
    BitOfPow2(m, k - 1 - i);
    BitXor(BitRev(x, k), Pow2(k - 1 - m), i);
    BitRevBit(x, k, k - 1 - i);
    BitOfPow2(k - 1 - m, i);
  }

  /** Toggling bit m of x toggles bit k-1-m of its reversal. */
  lemma BitRevToggle(x: nat, k: nat, m: nat)
    requires x < Pow2(k) && m < k
    ensures Xor(x, Pow2(m)) < Pow2(k)
    ensures BitRev(Xor(x, Pow2(m)), k) == Xor(BitRev(x, k), Pow2(k - 1 - m))
  {
    Pow2Monotone(m, k);
    XorBound(x, Pow2(m), k);
    if k - 1 - m < k - 1 {
      Pow2Monotone(k - 1 - m, k);
    }
    XorBound(BitRev(x, k), Pow2(k - 1 - m), k);
    forall i | 0 <= i < k
      ensures Bit(BitRev(Xor(x, Pow2(m)), k), i) == Bit(Xor(BitRev(x, k), Pow2(k - 1 - m)), i)
    {
      BitRevToggleBit(x, k, m, i);
    }
    BitsDetermine(BitRev(Xor(x, Pow2(m)), k), Xor(BitRev(x, k), Pow2(k - 1 - m)), k);
  }


  /** `Reverse(num, lg_n)`: loops over the `lg_n` low bits of `num` and, for
      each set bit i, sets bit `lg_n - 1 - i` of the result. The caller
      passes an index of a `List`, so `num` is a non-negative `int`, and
      `lg_n` is at most 31, so that no `1 << i` overflows. */
  method Reverse(num: int, lgN: int) returns (res: int)
    requires 0 <= num < 0x8000_0000
    requires 0 <= lgN <= 31
    ensures 0 <= res < Pow2(lgN)
    ensures res == BitRev(num, lgN)
  {
    res := 0;
    forall p | 0 <= p < lgN
      ensures Bit(res, p) == 0
    {
      BitOfZero(p);
    }
    for i := 0 to lgN
      invariant 0 <= res < Pow2(lgN)
      invariant forall p :: 0 <= p < lgN ==>
        Bit(res, p) == if lgN - 1 - p < i then Bit(num, lgN - 1 - p) else 0
    {
      var q := lgN - 1 - i;
      AndPow2(num, i);
      if And(num, Pow2(i)) > 0 {
        if q < lgN - 1 {
          Pow2Monotone(q, lgN);
        }
        OrBound(res, Pow2(q), lgN);
        forall p | 0 <= p < lgN
          ensures Bit(Or(res, Pow2(q)), p) == if p == q then 1 else Bit(res, p)
        {
          BitOr(res, Pow2(q), p);
          BitOfPow2(q, p);
        }
        res := Or(res, Pow2(q));
      }
    }
    forall p | 0 <= p < lgN
      ensures Bit(res, p) == Bit(BitRev(num, lgN), p)
    {
      BitRevBit(num, lgN, lgN - 1 - p);
    }
    BitsDetermine(res, BitRev(num, lgN), lgN);
  }

  /** The buffer reordered so that position i holds the element that stood
      at the k-bit reversal of i. */
  function BitReversed<T>(s: seq<T>, k: nat): seq<T>
    requires |s| == Pow2(k)
  {
    seq(|s|, x requires 0 <= x < |s| => s[BitRev(x, k)])
  }

  /** The bit-reversal permutation undoes itself. */
  lemma BitReversedInvolution<T>(s: seq<T>, k: nat)
    requires |s| == Pow2(k)
    ensures BitReversed(BitReversed(s, k), k) == s
  {
    var r := BitReversed(BitReversed(s, k), k);
    forall x | 0 <= x < |s|
      ensures r[x] == s[x]
    {
      BitRevInvolution(x, k);
    }
  }

  /** The state of the buffer after the swap loop has handled the indices
      below `done`: an element whose index or reversed index is below `done`
      has been moved to its final place, every other element is untouched. */
  ghost predicate SwappedBelow<T>(a: seq<T>, s: seq<T>, k: nat, done: int)
    requires |a| == |s| == Pow2(k)
  {
    forall x {:trigger a[x]} :: 0 <= x < |a| ==>
      a[x] == if x < done || BitRev(x, k) < done then s[BitRev(x, k)] else s[x]
  }

  /** `var t = a[i]; a[i] = a[j]; a[j] = t;` */
  method Swap<T>(a: array<T>, i: int, j: int)
    requires 0 <= i < a.Length && 0 <= j < a.Length
    modifies a
    ensures a[..] == old(a[..])[i := old(a[j])][j := old(a[i])]
    ensures multiset(a[..]) == multiset(old(a[..]))
  {
    var t := a[i];
    a[i] := a[j];
    a[j] := t;
  }

  /** Before the fast loop's first step, index 0 (its own reversal) counts
      as handled. */
  lemma SwappedNone<T>(a: seq<T>, k: nat)
    requires |a| == Pow2(k)
    ensures SwappedBelow(a, a, k, 1)
  {
    BitRevZero(k);
    forall x | 0 <= x < |a| && BitRev(x, k) == 0
      ensures x == 0
    {
      BitRevInvolution(x, k);
    }
  }

  /** One step of either swap loop: handling index i, whose reversal is j,
      swaps a[i] and a[j] exactly when i < j. */
  lemma SwapStep<T>(a: seq<T>, a': seq<T>, s: seq<T>, k: nat, i: nat, j: nat)
    requires |a| == |s| == Pow2(k) && i < |a|
    requires j == BitRev(i, k)
    requires SwappedBelow(a, s, k, i)
    requires a' == if i < j then a[i := a[j]][j := a[i]] else a
    ensures |a'| == |a| && SwappedBelow(a', s, k, i + 1)
  {
    BitRevInvolution(i, k);
    forall x | 0 <= x < |a|
      ensures a'[x] == if x < i + 1 || BitRev(x, k) < i + 1 then s[BitRev(x, k)] else s[x]
    {
      BitRevInvolution(x, k);
    }
  }

  /** Seen through the reversal, the inner loop of `FFTInPlaceFast` adds one
      to `BitRev(j, k)`: `j` plus 2^p reverses to i at every step, p being
      the number of bits already cleared. Clearing the next set bit from the
      top keeps that balance. */
  lemma ClearReversedBit(j: nat, k: nat, p: nat, i: nat)
    requires p < k && j < Pow2(k) && i < Pow2(k)
    requires BitRev(j, k) + Pow2(p) == i
    requires Bit(j, k - 1 - p) == 1
    ensures p + 1 < k
    ensures Xor(j, Pow2(k - 1 - p)) < Pow2(k)
    ensures BitRev(Xor(j, Pow2(k - 1 - p)), k) + Pow2(p + 1) == i
  {
    var m := k - 1 - p;
    assert k - 1 - m == p;
    var r := BitRev(j, k);
    BitRevBit(j, k, m);
    assert Bit(r, p) == 1;
    BitRevToggle(j, k, m);
    XorPow2(r, p);
    assert BitRev(Xor(j, Pow2(m)), k) == r - Pow2(p);
    assert Pow2(p + 1) == 2 * Pow2(p);
  }

  /** When the inner loop stops, setting the bit it stopped at completes
      the addition: the new `j` is the reversal of i. */
  lemma SetReversedBit(j: nat, k: nat, p: nat, i: nat)
    requires p < k && j < Pow2(k) && i < Pow2(k)
    requires BitRev(j, k) + Pow2(p) == i
    requires And(j, Pow2(k - 1 - p)) == 0
    ensures Xor(j, Pow2(k - 1 - p)) == BitRev(i, k)
  {
    var m := k - 1 - p;
    assert k - 1 - m == p;
    var r := BitRev(j, k);
    AndPow2(j, m);
    BitRevBit(j, k, m);
    assert Bit(r, p) == 0;
    BitRevToggle(j, k, m);
    XorPow2(r, p);
    assert BitRev(Xor(j, Pow2(m)), k) == i;
    BitRevInvolution(Xor(j, Pow2(m)), k);
  }

  /** Where the inner loop of `FFTInPlaceFast` starts: `bit` is the top bit
      `n >> 1`, and the reversal of i - 1 plus 2^0 reverses to i. */
  lemma FirstReversedBit(n: int, i: nat)
    requires IsPow2(n) && 0 < i < n
    ensures Log2(n) > 0 && n / 2 == Pow2(Log2(n) - 1)
    ensures BitRev(BitRev(i - 1, Log2(n)), Log2(n)) + Pow2(0) == i
  {
    var k := Log2(n);
    assert n == Pow2(k);
    BitRevInvolution(i - 1, k);
  }

  /** Lines 207-213 of `FFTInPlaceFast`: given `j`, the reversal of i - 1,
      compute the reversal of i. `bit` starts at the top bit, `n >> 1`; the
      loop clears the set bits of `j` from the top down (`j ^= bit`,
      `bit >>= 1`) and the bit it stops at is then set. The loop always
      stops before `bit` runs out, because i - 1 < n - 1 reverses to a `j`
      that is not all ones. */
  method NextReversed(j0: int, n: int, ghost i: nat) returns (j: int)
    requires IsPow2(n) && 0 < i < n
    requires j0 == BitRev(i - 1, Log2(n))
    ensures 0 <= j < n
    ensures j == BitRev(i, Log2(n))
  {
    ghost var k := Log2(n);
    FirstReversedBit(n, i);
    j := j0;
    var bit := n / 2;
    ghost var p := 0;
    while And(j, bit) > 0
      invariant 0 <= p < k
      invariant bit == Pow2(k - 1 - p)
      invariant 0 <= j < n
      invariant BitRev(j, k) + Pow2(p) == i
      decreases k - p
    {
      AndPow2(j, k - 1 - p);
      assert Bit(j, k - 1 - p) == 1;
      ClearReversedBit(j, k, p, i);
      assert Pow2(k - 1 - p) == 2 * Pow2(k - 2 - p);
      j := Xor(j, bit);
      bit := bit / 2;
      p := p + 1;
    }
    SetReversedBit(j, k, p, i);
    j := Xor(j, bit);
  }

  /** The first loop of `FFTInPlaceFast` (lines 205-221): `j` runs through
      the reversals of 1, 2, ..., n - 1 without recomputing them (the step
      is `NextReversed`), and a[i] and a[j] are swapped when i < j. The
      source's callers pass a buffer whose length is a power of two (the
      padded window). */
  method BitReverseFast<T>(a: array<T>)
    requires IsPow2(a.Length)
    modifies a
    ensures a[..] == BitReversed(old(a[..]), Log2(a.Length))
    ensures multiset(a[..]) == multiset(old(a[..]))
  {
    var n := a.Length;
    ghost var k := Log2(n);
    ghost var s := a[..];
    BitRevZero(k);
    SwappedNone(a[..], k);
    var i, j := 1, 0;
    while i < n
      invariant 1 <= i <= n
      invariant j == BitRev(i - 1, k)
      invariant SwappedBelow(a[..], s, k, i)
      invariant multiset(a[..]) == multiset(s)
    {
      j := NextReversed(j, n, i);
      ghost var before := a[..];
      if i < j {
        Swap(a, i, j);
      }
      SwapStep(before, a[..], s, k, i, j);
      i := i + 1;
    }
  }

  /** The loop at the head of `FFTInPlaceSlow` that finds `lg_n`, the
      smallest exponent whose power of two reaches `n`. */
  method CeilLog2(n: int) returns (lgN: nat)
    ensures n <= Pow2(lgN)
    ensures lgN == 0 || Pow2(lgN - 1) < n
  {
    lgN := 0;
    while Pow2(lgN) < n
      invariant lgN == 0 || Pow2(lgN - 1) < n
      decreases n - Pow2(lgN)
    {
      lgN := lgN + 1;
    }
  }

  /** The first phase of `FFTInPlaceSlow`: the same swaps as
      `BitReverseFast`, each partner index computed afresh by `Reverse`.
      The buffer is a `List`, whose count is an `int`. */
  method BitReverseSlow<T>(a: array<T>)
    requires IsPow2(a.Length) && a.Length < 0x8000_0000
    modifies a
    ensures a[..] == BitReversed(old(a[..]), Log2(a.Length))
    ensures multiset(a[..]) == multiset(old(a[..]))
  {
    var n := a.Length;
    var lgN := CeilLog2(n);
    Log2Unique(n, lgN);
    assert lgN < 31 by {
      if lgN > 31 {
        Pow2Monotone(31, lgN);
      }
      Pow2Values();
    }
    ghost var s := a[..];
    for i := 0 to n
      invariant SwappedBelow(a[..], s, lgN, i)
      invariant multiset(a[..]) == multiset(s)
    {
      var reverse := Reverse(i, lgN);
      ghost var before := a[..];
      if i < reverse {
        Swap(a, i, reverse);
      }
      SwapStep(before, a[..], s, lgN, i, reverse);
    }
  }

  /** The two loops perform the same permutation: run on equal buffers,
      they leave equal buffers. */
  method FastMatchesSlow<T>(a: array<T>, b: array<T>)
    requires a != b && a[..] == b[..]
    requires IsPow2(a.Length) && a.Length < 0x8000_0000
    modifies a, b
    ensures a[..] == b[..]
  {
    BitReverseFast(a);
    BitReverseSlow(b);
  }
}
