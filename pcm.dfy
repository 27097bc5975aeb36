/** The PCM decoders of `BackgroundWorker`: `GetBits8`, `GetBits16` and
    `GetBits32` turn the first `length` bytes of a capture buffer into
    signed 64-bit (`long`) samples. The 8-bit decoder reads unsigned bytes
    and recentres them; the 16- and 32-bit decoders assemble little-endian
    words with the sign bit of the most significant byte flipped and then
    subtract 2^31, which is exactly the two's-complement reading of the
    word (times 2^16 for 16-bit words). All intermediate values stay below
    2^32, so no `long` arithmetic in these decoders overflows and shifts are
    written as multiplications. */
module Pcm {
  import opened Bits

  type byte = x: nat | x < 256

  /** `Enumerable.Take(length)`: the first `length` bytes, none when
      `length` is not positive, all when the buffer is shorter. */
  function Take(buffer: seq<byte>, length: int): (r: seq<byte>)
    ensures |r| == if length <= 0 then 0 else if length < |buffer| then length else |buffer|
    ensures r == buffer[..|r|]
  {
    if length <= 0 then [] else if length < |buffer| then buffer[..length] else buffer
  }

  // ---------------------------------------------------------------------
  // Reference readings of a little-endian byte group

  /** The two's-complement reading of the little-endian 16-bit word
      (lo, hi): its unsigned value, less 2^16 when the sign bit (bit 7 of
      the high byte) is set. */
  function Int16LE(lo: byte, hi: byte): int
  {
    lo + 0x100 * hi - (if hi >= 0x80 then 0x1_0000 else 0)
  }

  /** The two's-complement reading of the little-endian 32-bit word
      (b0, b1, b2, b3). */
  function Int32LE(b0: byte, b1: byte, b2: byte, b3: byte): int
  {
    b0 + 0x100 * b1 + 0x1_0000 * b2 + 0x100_0000 * b3 - (if b3 >= 0x80 then 0x1_0000_0000 else 0)
  }

  /** `b ^ (1 << 7)`: flips the top bit of a byte. */
  function FlipTop(b: byte): (r: byte)
    ensures r == if b < 0x80 then b + 0x80 else b - 0x80
  {
    XorPow2(b, 7);
    assert Bit(b, 7) == 1 <==> b >= 0x80 by {
      BitOfByte(b);
    }
    Xor(b, 0x80)
  }

  lemma BitOfByte(b: byte)
    ensures Bit(b, 7) == 1 <==> b >= 0x80
  {
    assert Pow2(7) == 0x80;
    assert b == (if b >= 0x80 then 0x80 else 0) + b % 0x80;
    BitsOfTopAndLow(b >= 0x80, b % 0x80, 7, 7);
  }

  // ---------------------------------------------------------------------
  // The decoders

  /** `GetBits8`: one sample `(b << 24) - (1 << 31)` per byte taken. */
  function GetBits8(buffer: seq<byte>, length: int): (r: seq<int>)
    ensures |r| == |Take(buffer, length)|
    ensures forall i :: 0 <= i < |r| ==> r[i] == (buffer[i] as int - 0x80) * 0x100_0000
    ensures forall i :: 0 <= i < |r| ==>
      -0x8000_0000 <= r[i] <= 0x8000_0000 - 0x100_0000 && r[i] % 0x100_0000 == 0
  {
    var t := Take(buffer, length);
    seq(|t|, i requires 0 <= i < |t| => t[i] as int * 0x100_0000 - 0x8000_0000)
  }

  /** The 16-bit sample built from a byte pair at lines 56-59:
      `res = b0 + ((b1 ^ 0x80) << 8)`, then `(res << 16) - (1 << 31)`. */
  function Sample16(b0: byte, b1: byte): (r: int)
    ensures r == Int16LE(b0, b1) * 0x1_0000
    ensures -0x8000_0000 <= r <= 0x8000_0000 - 0x1_0000 && r % 0x1_0000 == 0
  {
    var res: int := b0 + FlipTop(b1) * 0x100;
    res * 0x1_0000 - 0x8000_0000
  }

  /** The 32-bit sample built from four bytes at lines 70-77:
      `b0 + (b1 << 8) + (b2 << 16) + ((b3 ^ 0x80) << 24) - (1 << 31)`. */
  function Sample32(b0: byte, b1: byte, b2: byte, b3: byte): (r: int)
    ensures r == Int32LE(b0, b1, b2, b3)
    ensures -0x8000_0000 <= r < 0x8000_0000
  {
    var res: int := b0 + b1 * 0x100 + b2 * 0x1_0000 + FlipTop(b3) * 0x100_0000;
    res - 0x8000_0000
  }

  /** Prepending the sample of the first byte pair to the samples of the
      rest of the buffer gives the samples of the whole buffer. */
  lemma PrependSample16(buffer: seq<byte>, rest: seq<int>)
    requires 2 * |rest| + 2 <= |buffer|
    requires forall i :: 0 <= i < |rest| ==>
      rest[i] == Int16LE(buffer[2..][2 * i], buffer[2..][2 * i + 1]) * 0x1_0000 &&
      -0x8000_0000 <= rest[i] <= 0x8000_0000 - 0x1_0000 && rest[i] % 0x1_0000 == 0
    ensures forall i :: 0 <= i < |rest| + 1 ==>
      var r := [Sample16(buffer[0], buffer[1])] + rest;
      r[i] == Int16LE(buffer[2 * i], buffer[2 * i + 1]) * 0x1_0000 &&
      -0x8000_0000 <= r[i] <= 0x8000_0000 - 0x1_0000 && r[i] % 0x1_0000 == 0
  {
    var r := [Sample16(buffer[0], buffer[1])] + rest;
    forall i | 0 < i < |r|
      ensures r[i] == Int16LE(buffer[2 * i], buffer[2 * i + 1]) * 0x1_0000
    {
      var o := 2 * (i - 1);
      assert o + 2 == 2 * i;
      assert r[i] == rest[i - 1];
      assert buffer[2..][o] == buffer[o + 2] && buffer[2..][o + 1] == buffer[o + 3];
    }
  }

  /** `GetBits16`: each step of the enumerator loop reads a little-endian
      byte pair and yields its sample. On an odd-length input the source
      ignores the failed inner `MoveNext()` and builds a last sample from
      whatever `Current` then holds, so the effective length must be even. */
  function GetBits16(buffer: seq<byte>, length: int): (r: seq<int>)
    requires |Take(buffer, length)| % 2 == 0
    ensures |r| == |Take(buffer, length)| / 2
    ensures forall i :: 0 <= i < |r| ==>
      r[i] == Int16LE(buffer[2 * i], buffer[2 * i + 1]) * 0x1_0000
    ensures forall i :: 0 <= i < |r| ==>
      -0x8000_0000 <= r[i] <= 0x8000_0000 - 0x1_0000 && r[i] % 0x1_0000 == 0
    decreases |buffer|
  {
    if length <= 0 || |buffer| == 0 then []
    else
      assert Take(buffer[2..], length - 2) == Take(buffer, length)[2..];
      var rest := GetBits16(buffer[2..], length - 2);
      PrependSample16(buffer, rest);
      [Sample16(buffer[0], buffer[1])] + rest
  }

  /** Prepending the sample of the first four bytes to the samples of the
      rest of the buffer gives the samples of the whole buffer. */
  lemma PrependSample32(buffer: seq<byte>, rest: seq<int>)
    requires 4 * |rest| + 4 <= |buffer|
    requires forall i :: 0 <= i < |rest| ==>
      rest[i] == Int32LE(buffer[4..][4 * i], buffer[4..][4 * i + 1], buffer[4..][4 * i + 2], buffer[4..][4 * i + 3]) &&
      -0x8000_0000 <= rest[i] < 0x8000_0000
    ensures forall i :: 0 <= i < |rest| + 1 ==>
      var r := [Sample32(buffer[0], buffer[1], buffer[2], buffer[3])] + rest;
      r[i] == Int32LE(buffer[4 * i], buffer[4 * i + 1], buffer[4 * i + 2], buffer[4 * i + 3]) &&
      -0x8000_0000 <= r[i] < 0x8000_0000
  {
    var r := [Sample32(buffer[0], buffer[1], buffer[2], buffer[3])] + rest;
    forall i | 0 < i < |r|
      ensures r[i] == Int32LE(buffer[4 * i], buffer[4 * i + 1], buffer[4 * i + 2], buffer[4 * i + 3])
    {
      var o := 4 * (i - 1);
      assert o + 4 == 4 * i;
      assert r[i] == rest[i - 1];
      assert buffer[4..][o] == buffer[o + 4] && buffer[4..][o + 1] == buffer[o + 5];
      assert buffer[4..][o + 2] == buffer[o + 6] && buffer[4..][o + 3] == buffer[o + 7];
    }
  }

  /** `GetBits32`: each step of the enumerator loop reads four bytes,
      least significant first, and yields their sample. The effective length
      must be a multiple of four, for the reason given at `GetBits16`. */
  function GetBits32(buffer: seq<byte>, length: int): (r: seq<int>)
    requires |Take(buffer, length)| % 4 == 0
    ensures |r| == |Take(buffer, length)| / 4
    ensures forall i :: 0 <= i < |r| ==>
      r[i] == Int32LE(buffer[4 * i], buffer[4 * i + 1], buffer[4 * i + 2], buffer[4 * i + 3])
    ensures forall i :: 0 <= i < |r| ==> -0x8000_0000 <= r[i] < 0x8000_0000
    decreases |buffer|
  {
    if length <= 0 || |buffer| == 0 then []
    else
      assert Take(buffer[4..], length - 4) == Take(buffer, length)[4..];
      var rest := GetBits32(buffer[4..], length - 4);
      PrependSample32(buffer, rest);
      [Sample32(buffer[0], buffer[1], buffer[2], buffer[3])] + rest
  }
}
