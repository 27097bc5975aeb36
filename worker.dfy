/** The integer part of the capture callback in `StartAsync`
    (lines 30-35): decode the block as 32-bit PCM, lift each sample to a
    complex number with zero imaginary part, pad to a power of two, and
    (as the first phase of `FFTInPlaceFast`) put the window in bit-reversed
    order. Normalisation, the butterfly stages and the broadcasts are not
    part of this model. */
module Worker {
  import opened Bits
  import opened Pcm
  import opened Padding
  import opened BitReversal

  /** Lines 30-33: `GetBits32(...).Select(item => new Complex(item, 0))`,
      then `Resize`. */
  method PrepareWindow(buffer: seq<byte>, bytesRecorded: int) returns (a: seq<Complex>)
    requires |Take(buffer, bytesRecorded)| % 4 == 0
    ensures IsPow2(|a|)
    ensures |a| == NextPow2(|Take(buffer, bytesRecorded)| / 4)
    ensures forall i :: 0 <= i < |Take(buffer, bytesRecorded)| / 4 ==>
      a[i] == Complex(Int32LE(buffer[4 * i], buffer[4 * i + 1], buffer[4 * i + 2], buffer[4 * i + 3]) as real, 0.0)
    ensures forall i :: |Take(buffer, bytesRecorded)| / 4 <= i < |a| ==> a[i] == Zero
  {
    var samples := GetBits32(buffer, bytesRecorded);
    var window := seq(|samples|, i requires 0 <= i < |samples| => Complex(samples[i] as real, 0.0));
    a := Resize(window);
  }

  /** Lines 30-35 up to the end of the bit-reversal loop: the padded window
      always meets the power-of-two length that the reordering needs. */
  method ReorderedWindow(buffer: seq<byte>, bytesRecorded: int) returns (w: seq<Complex>, buf: array<Complex>)
    requires |Take(buffer, bytesRecorded)| % 4 == 0
    ensures |w| == NextPow2(|Take(buffer, bytesRecorded)| / 4)
    ensures forall i :: 0 <= i < |Take(buffer, bytesRecorded)| / 4 ==>
      w[i] == Complex(Int32LE(buffer[4 * i], buffer[4 * i + 1], buffer[4 * i + 2], buffer[4 * i + 3]) as real, 0.0)
    ensures forall i :: |Take(buffer, bytesRecorded)| / 4 <= i < |w| ==> w[i] == Zero
    ensures fresh(buf)
    ensures IsPow2(|w|) && buf.Length == |w|
    ensures buf[..] == BitReversed(w, Log2(|w|))
  {
    w := PrepareWindow(buffer, bytesRecorded);
    buf := new Complex[|w|](i requires 0 <= i < |w| => w[i]);
    BitReverseFast(buf);
  }
}
