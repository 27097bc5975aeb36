/** `Resize`, the block preparer: pads the decoded window with zero samples
    up to the next power of two, the length the radix-2 FFT needs. */
module Padding {
  import opened Bits

  /** `System.Numerics.Complex`; no arithmetic on it is modelled here. */
  datatype Complex = Complex(re: real, im: real)

  /** `Complex.Zero`. */
  const Zero: Complex := Complex(0.0, 0.0)

  /** The smallest power of two that is at least `c` (1 for 0 and 1),
      defined by halving `c` upwards rather than by doubling. */
  function NextPow2(c: nat): (r: nat)
    ensures IsPow2(r) && c <= r
  {
    if c <= 1 then 1 else 2 * NextPow2((c + 1) / 2)
  }

  /** No power of two at least `c` is below `NextPow2(c)`. */
  lemma {:induction false} NextPow2Least(c: nat, m: int)
    requires IsPow2(m) && c <= m
    ensures NextPow2(c) <= m
  {
    if c > 1 {
      NextPow2Least((c + 1) / 2, m / 2);
    }
  }

  /** A power of two is its own padded length. */
  lemma {:induction false} NextPow2OfPow2(c: nat)
    requires IsPow2(c)
    ensures NextPow2(c) == c
  {
    if c > 1 {
      NextPow2OfPow2(c / 2);
    }
  }

  /** A power of two n with n / 2 < c <= n is `NextPow2(c)`; this is where
      the doubling loop of `Resize` stops. */
  lemma NextPow2Unique(c: nat, n: int)
    requires IsPow2(n) && c <= n && (n == 1 || n / 2 < c)
    ensures n == NextPow2(c)
  {
    NextPow2Least(c, n);
    var r := NextPow2(c);
    if r < n {
      Pow2Below(r, n);
    }
  }

  /** A power of two below another one is at most its half. */
  lemma {:induction false} Pow2Below(r: int, n: int)
    requires IsPow2(r) && IsPow2(n) && r < n
    ensures r <= n / 2
  {
    if r > 1 {
      Pow2Below(r / 2, n / 2);
    }
  }

  /** The window `a` followed by zero samples up to the next power of two. */
  function Padded(a: seq<Complex>): seq<Complex>
  {
    a + seq(NextPow2(|a|) - |a|, _ => Zero)
  }

  /** `Resize`: doubles `n` from 1 (`n <<= 1`) until it reaches the sample
      count, then appends `n - count` copies of `Complex.Zero`. */
  method Resize(a: seq<Complex>) returns (r: seq<Complex>)
    ensures r == Padded(a)
    ensures IsPow2(|r|) && |a| <= |r|
    ensures forall m :: IsPow2(m) && |a| <= m ==> |r| <= m
    ensures r[..|a|] == a
    ensures forall i :: |a| <= i < |r| ==> r[i] == Zero
  {
    var n := 1;
    while n < |a|
      invariant IsPow2(n)
      invariant n == 1 || n / 2 < |a|
    {
      n := n * 2;
    }
    NextPow2Unique(|a|, n);
    r := a + seq(n - |a|, _ => Zero);
    forall m | IsPow2(m) && |a| <= m
      ensures |r| <= m
    {
      NextPow2Least(|a|, m);
    }
  }

  /** A window whose length is already a power of two is left as it is. */
  lemma PaddedOfPow2(a: seq<Complex>)
    requires IsPow2(|a|)
    ensures Padded(a) == a
  {
    NextPow2OfPow2(|a|);
  }

  /** Padding twice pads once. */
  lemma PaddedIdempotent(a: seq<Complex>)
    ensures Padded(Padded(a)) == Padded(a)
  {
    PaddedOfPow2(Padded(a));
  }
}
