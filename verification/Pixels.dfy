/** RGB565 pixels, frames of them, and the little-endian bytes they occupy in memory. */
module Pixels {
  type u8 = bv8
  type pixel = bv16
  type Frame = seq<pixel>

  function LowByte(p: pixel): u8 {
    (p & 0xff) as u8
  }

  function HighByte(p: pixel): u8 {
    ((p >> 8) & 0xff) as u8
  }

  function JoinBytes(low: u8, high: u8): pixel {
    (low as pixel) | ((high as pixel) << 8)
  }

  lemma JoinSplit(p: pixel)
    ensures JoinBytes(LowByte(p), HighByte(p)) == p
  {
  }

  lemma SplitJoinLow(low: u8, high: u8)
    ensures LowByte(JoinBytes(low, high)) == low
  {
  }

  lemma SplitJoinHigh(low: u8, high: u8)
    ensures HighByte(JoinBytes(low, high)) == high
  {
  }

  function ByteAt(f: Frame, i: nat): u8
    requires i < 2 * |f|
  {
    if i % 2 == 0 then LowByte(f[i / 2]) else HighByte(f[i / 2])
  }

  /** A frame as the bytes it occupies. */
  function ToBytes(f: Frame): (b: seq<u8>)
    ensures |b| == 2 * |f|
  {
    seq(2 * |f|, i requires 0 <= i < 2 * |f| => ByteAt(f, i))
  }

  function FromBytes(b: seq<u8>): (f: Frame)
    requires |b| % 2 == 0
    ensures 2 * |f| == |b|
  {
    seq(|b| / 2, i requires 0 <= i < |b| / 2 => JoinBytes(b[2 * i], b[2 * i + 1]))
  }

  lemma FromToBytes(f: Frame)
    ensures FromBytes(ToBytes(f)) == f
  {
    forall i | 0 <= i < |f|
      ensures FromBytes(ToBytes(f))[i] == f[i]
    {
      JoinSplit(f[i]);
    }
  }

  lemma ToFromBytes(b: seq<u8>)
    requires |b| % 2 == 0
    ensures ToBytes(FromBytes(b)) == b
  {
    forall i | 0 <= i < |b|
      ensures ToBytes(FromBytes(b))[i] == b[i]
    {
      var k := i / 2;
      SplitJoinLow(b[2 * k], b[2 * k + 1]);
      SplitJoinHigh(b[2 * k], b[2 * k + 1]);
    }
  }

  function Xor(p: pixel, q: pixel): pixel { p ^ q }

  lemma XorTwice(p: pixel, q: pixel)
    ensures Xor(Xor(p, q), q) == p
  {
  }

  function XorFrames(a: Frame, b: Frame): (c: Frame)
    requires |a| == |b|
    ensures |c| == |a|
  {
    seq(|a|, i requires 0 <= i < |a| => Xor(a[i], b[i]))
  }

  /** Exclusive-or with the same frame twice changes nothing. */
  lemma XorFramesTwice(a: Frame, b: Frame)
    requires |a| == |b|
    ensures XorFrames(XorFrames(a, b), b) == a
  {
    forall i | 0 <= i < |a|
      ensures XorFrames(XorFrames(a, b), b)[i] == a[i]
    {
      XorTwice(a[i], b[i]);
    }
  }

  method CopyFrame(src: array<pixel>, dst: array<pixel>)
    requires src.Length == dst.Length && src != dst
    modifies dst
    ensures dst[..] == src[..]
  {
    for i := 0 to src.Length
      invariant dst[..i] == src[..i]
    {
      dst[i] := src[i];
    }
    assert dst[..src.Length] == dst[..] && src[..src.Length] == src[..];
  }
}
