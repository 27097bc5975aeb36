# SoundWave spectrum pipeline: integer core in Dafny

This project models the integer part of the audio-to-spectrum pipeline in
`BackgroundWorker` (`Energizet.SoundWave.Web/Controllers/SignalRHub.cs`).
Each capture block goes through four steps:

- **PCM decoders** `GetBits8`, `GetBits16` and `GetBits32` turn the first
  `length` bytes of a capture buffer into signed `long` samples. They are
  modelled as functions over `seq<byte>`. `GetBits16` and `GetBits32`
  recurse one byte group at a time, as their enumerator loops step. They
  are compared with the two's-complement readings `Int16LE` and `Int32LE`
  (module `Pcm`, `pcm.dfy`).
- **Block preparer** `Resize` pads the window with `Complex.Zero` up to the
  next power of two. It is a method with the source's doubling loop, proved
  against the specification function `Padded` (module `Padding`,
  `padding.dfy`).
- **Bit-reversal permutation** is the index-reordering phase of the
  iterative radix-2 FFT. Three pieces are modelled: `Reverse` with its
  accumulating loop; the swap loop that opens `FFTInPlaceFast`, which
  maintains the reversed index `j` incrementally; and the swap loop that
  opens `FFTInPlaceSlow`, which calls `Reverse` and first computes `lg_n`.
  `Reverse` is a method over `int` values, proved equal to the reference
  reversal `BitRev`. The two swap loops are methods over an `array<T>`,
  proved against the specification function `BitReversed` (module
  `BitReversal`, `bit_reversal.dfy`).
- **The capture callback's data flow** (lines 30-35) runs decode, lift to
  `Complex`, `Resize`, then the fast reordering (module `Worker`,
  `worker.dfy`).

Module `Bits` (`bits.dfy`) holds the shared vocabulary: `1 << k` (`Pow2`),
the bit at a position, and `&`, `|`, `^` on non-negative integers. Lemmas
link these operators, applied to a single-bit mask, to setting, clearing
and testing one bit.

Main results:

- The XOR with bit 7 followed by subtracting 2^31 is exactly the
  two's-complement reading of the little-endian word. For 16-bit input the
  result is also multiplied by 2^16. The XOR could be taken for a latent
  bug on two's-complement input. In fact, two's-complement input is the
  case the code decodes correctly
  (`Sample16`, `Sample32`).
- The padded length is the smallest power of two that is at least the
  sample count, and it is 1 for an empty window. The prefix is unchanged,
  the padding is all zeros, and padding is idempotent.
- `BitRev` reverses bits and undoes itself, and `Reverse` computes it. After
  each update, the fast loop's running index `j` is the reversal of `i`.
  Both loops leave position i holding the original element at `BitRev(i, k)`
  and permute the buffer, so they perform the same reordering.

Trailing bytes of an incomplete 16-bit or 32-bit group are not dropped.
The code ignores the result of the inner `MoveNext()` calls
(`SignalRHub.cs` lines 57, 71, 73 and 75) and still yields a sample, built
from whatever `Current` holds once the enumerator is exhausted. The model
therefore requires the effective length to be a multiple of the sample
width and makes no claim about trailing bytes.

## Model

| member | source | states |
|---|---|---|
| `Pcm.GetBits8` | Energizet.SoundWave.Web/Controllers/SignalRHub.cs:44-48 | one sample per byte among the first min(length, buffer length) bytes (none when length <= 0); sample i is (b - 128) * 2^24, lies in [-2^31, 2^31 - 2^24] and is a multiple of 2^24 |
| `Pcm.Take` | Energizet.SoundWave.Web/Controllers/SignalRHub.cs:45 | `Take(length)` keeps the first min(length, buffer length) bytes, and none when length <= 0 |
| `Pcm.FlipTop` | Energizet.SoundWave.Web/Controllers/SignalRHub.cs:58 | `b ^ (1 << 7)` adds 128 to a byte below 128 and subtracts 128 from any other |
| `Pcm.Sample16` | Energizet.SoundWave.Web/Controllers/SignalRHub.cs:56-59 | the sample built from bytes b0, b1 is the little-endian two's-complement int16 of (b0, b1) times 2^16, so it lies in [-2^31, 2^31 - 2^16] and is a multiple of 2^16 |
| `Pcm.PrependSample16` | Energizet.SoundWave.Web/Controllers/SignalRHub.cs:53-58 | one step of the loop: the sample of the first byte pair followed by the samples of the rest are the samples of the whole buffer, each in range and a multiple of 2^16 |
| `Pcm.GetBits16` | Energizet.SoundWave.Web/Controllers/SignalRHub.cs:50-62 | for an even effective length, yields length/2 samples; sample i is the two's-complement int16 of bytes 2i, 2i+1 times 2^16, lies in [-2^31, 2^31 - 2^16] and is a multiple of 2^16 |
| `Pcm.Sample32` | Energizet.SoundWave.Web/Controllers/SignalRHub.cs:70-77 | the sample built from four bytes is their little-endian two's-complement int32, so it lies in [-2^31, 2^31 - 1] |
| `Pcm.PrependSample32` | Energizet.SoundWave.Web/Controllers/SignalRHub.cs:67-76 | one step of the loop: the sample of the first four bytes followed by the samples of the rest are the samples of the whole buffer, each in int32 range |
| `Pcm.GetBits32` | Energizet.SoundWave.Web/Controllers/SignalRHub.cs:64-80 | for an effective length that is a multiple of 4, yields length/4 samples; sample i is the two's-complement int32 of bytes 4i..4i+3 and lies in [-2^31, 2^31 - 1] |
| `Padding.NextPow2Least` | Energizet.SoundWave.Web/Controllers/SignalRHub.cs:97-101 | no power of two that is at least the count is smaller than the padded length |
| `Padding.NextPow2Unique` | Energizet.SoundWave.Web/Controllers/SignalRHub.cs:97-101 | the power of two where the doubling loop stops (n/2 < count <= n, or n = 1) is the padded length |
| `Padding.NextPow2OfPow2` | Energizet.SoundWave.Web/Controllers/SignalRHub.cs:97-101 | a count that is already a power of two is its own padded length |
| `Padding.Resize` | Energizet.SoundWave.Web/Controllers/SignalRHub.cs:95-104 | the result is `Padded(a)`: its length is a power of two, at least the count and no larger than any such power (1 for an empty input); the first count entries are the input; every appended entry is `Complex.Zero` |
| `Padding.PaddedOfPow2` | Energizet.SoundWave.Web/Controllers/SignalRHub.cs:97-103 | an input whose length is a power of two is returned unchanged |
| `Padding.PaddedIdempotent` | Energizet.SoundWave.Web/Controllers/SignalRHub.cs:95-104 | resizing a resized window changes nothing |
| `Bits.AndPow2` | Energizet.SoundWave.Web/Controllers/SignalRHub.cs:247 | `(x & (1 << m)) > 0` holds exactly when bit m of x is set |
| `Bits.XorPow2` | Energizet.SoundWave.Web/Controllers/SignalRHub.cs:210 | `x ^ (1 << m)` subtracts 2^m when bit m is set and adds it otherwise |
| `Bits.BitXor` | Energizet.SoundWave.Web/Controllers/SignalRHub.cs:210 | each bit of the bitwise xor of x and y is set exactly when it is set in one of x and y but not both |
| `Bits.BitOr` | Energizet.SoundWave.Web/Controllers/SignalRHub.cs:249 | each bit of the bitwise or of x and y is set exactly when it is set in x or in y |
| `BitReversal.BitRev` | Energizet.SoundWave.Web/Controllers/SignalRHub.cs:242-254 | the k-bit reversal of any number is below 2^k |
| `BitReversal.BitRevBit` | Energizet.SoundWave.Web/Controllers/SignalRHub.cs:245-251 | bit k-1-i of the reversal is bit i of the input, for every i < k |
| `BitReversal.BitRevInvolution` | Energizet.SoundWave.Web/Controllers/SignalRHub.cs:242-254 | reversing twice gives back every number below 2^k |
| `BitReversal.BitRevZero` | Energizet.SoundWave.Web/Controllers/SignalRHub.cs:242-254 | the reversal of 0 is 0 |
| `BitReversal.Reverse` | Energizet.SoundWave.Web/Controllers/SignalRHub.cs:242-254 | for 0 <= num < 2^31 and 0 <= lg_n <= 31, the result is the lg_n-bit reversal of num and is below 2^lg_n |
| `BitReversal.BitRevToggle` | Energizet.SoundWave.Web/Controllers/SignalRHub.cs:210 | toggling bit m of an index below 2^k toggles bit k-1-m of its reversal and stays below 2^k |
| `BitReversal.ClearReversedBit` | Energizet.SoundWave.Web/Controllers/SignalRHub.cs:208-211 | clearing the next set bit from the top keeps `BitRev(j, k) + 2^p == i`, where p counts the bits already cleared; since i < 2^k, another bit is left below it, so `bit` never reaches 0 |
| `BitReversal.SetReversedBit` | Energizet.SoundWave.Web/Controllers/SignalRHub.cs:213 | once the inner loop stops, setting `bit` makes j the reversal of i |
| `BitReversal.FirstReversedBit` | Energizet.SoundWave.Web/Controllers/SignalRHub.cs:207 | for n = 2^k with 0 < i < n, k > 0 and `bit` starts at the top bit 2^(k-1); the reversal of i-1, reversed back, plus 2^0 is i |
| `BitReversal.NextReversed` | Energizet.SoundWave.Web/Controllers/SignalRHub.cs:207-213 | given j = reversal of i-1 (0 < i < n, n = 2^k), the inner loop and the update at line 213 leave j = reversal of i, with 0 <= j < n |
| `BitReversal.Swap` | Energizet.SoundWave.Web/Controllers/SignalRHub.cs:217-219 | exchanges a[i] and a[j], nothing else changes, and the buffer stays a permutation |
| `BitReversal.SwapStep` | Energizet.SoundWave.Web/Controllers/SignalRHub.cs:215-220 | swapping only when i < j keeps the invariant: an element whose index or reversed index has been handled sits at its final place, and every other element is untouched |
| `BitReversal.BitReverseFast` | Energizet.SoundWave.Web/Controllers/SignalRHub.cs:205-221 | for n = 2^k, afterwards position i holds the original element at `BitRev(i, k)`; the buffer is a permutation of the original |
| `BitReversal.CeilLog2` | Energizet.SoundWave.Web/Controllers/SignalRHub.cs:165-169 | lg_n is the smallest exponent with n <= 2^lg_n |
| `BitReversal.BitReverseSlow` | Energizet.SoundWave.Web/Controllers/SignalRHub.cs:162-180 | for n = 2^k (an `int` count), afterwards position i holds the original element at `Reverse(i, k)`; the buffer is a permutation of the original |
| `BitReversal.FastMatchesSlow` | Energizet.SoundWave.Web/Controllers/SignalRHub.cs:171-180 | on equal buffers, the fast and the slow loops leave equal buffers |
| `BitReversal.BitReversedInvolution` | Energizet.SoundWave.Web/Controllers/SignalRHub.cs:205-221 | applying the bit-reversal permutation twice restores the buffer |
| `Worker.PrepareWindow` | Energizet.SoundWave.Web/Controllers/SignalRHub.cs:30-33 | the window has power-of-two length `NextPow2(samples)`; entry i is the int32 sample i as a complex number with zero imaginary part, and the rest are zero |
| `Worker.ReorderedWindow` | Energizet.SoundWave.Web/Controllers/SignalRHub.cs:30-35 | the window is the padded window of the decoded samples (length `NextPow2(samples)`, entry i the int32 sample i as a complex number, zeros after); it always meets the power-of-two precondition of the fast reordering, which leaves it in bit-reversed order |

## Left out

- The butterfly stages of `FFTInPlaceFast` and `FFTInPlaceSlow` (lines 182-198, 223-239) are not modelled. Neither is the recursive `FFT` (lines 132-160). Their results depend on `Math.Cos`, `Math.Sin` and floating-point `Complex` products, which exact reals cannot reproduce.
- `Normalize` (lines 106-111) is not modelled. It rounds doubles with `Math.Round`.
- `GetWave` and `shift` (lines 82-93) are not modelled. They are a sine-based debug generator that uses floating point and static state.
- `StartAsync` and `StopAsync` are not modelled beyond the data flow of lines 30-35. They cover device capture, the async callback, cancellation and the hosted-service lifecycle, which are I/O and threading.
- `SendWave` and `SendFFT` are not modelled. They are network fan-out with `Task.WhenAll`.
- The subscriber registry (`Clients`, `OnConnectedAsync`, `OnDisconnectedAsync`, `SendMessage`) is not modelled. Its substance is concurrent access to a map.
- Program.cs is not part of this model. It holds only service, CORS and routing setup.
- `Complex` values are exact reals. Only `Complex.Zero` and integer samples occur in the modelled part.
- Pcm.GetBits16: requires an even effective length. With an odd length the source yields one more sample, built from the enumerator's `Current` after it is exhausted. That value depends on the runtime.
- Pcm.GetBits32: requires an effective length that is a multiple of 4, for the same reason.
- Bits.And, Bits.Or and Bits.Xor are bitwise operators on non-negative integers. The source applies them only to non-negative `int` and `long` values, so two's-complement negative operands are not modelled.
- BitReversal.Reverse: requires 0 <= num < 2^31 and 0 <= lg_n <= 31. Its only caller passes an index of the buffer and an exponent that stays below 31. Negative `num` and the C# masking of shift counts above 31 are not modelled.
- BitReversal.NextReversed: this is the inner loop and the update of lines 207-213 of `FFTInPlaceFast`, factored out of the outer loop into a method of its own.
- BitReversal.BitReverseFast: requires a power-of-two length, which the padded window always has. For other lengths the source's behaviour is not modelled.
- BitReversal.BitReverseSlow: requires a power-of-two length below 2^31. For other lengths `Reverse` can return an index past the end, and the source then throws.
- Padding.Resize: the model's `n` is unbounded. In the source `n` is an `int`, so for counts above 2^30 `n <<= 1` wraps to a negative value and then to 0, and the loop never ends.
- BitReversal.CeilLog2: the model's `1 << lg_n` is unbounded. In the source, for counts above 2^30 the shift wraps and the loop never ends.
