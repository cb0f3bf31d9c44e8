/**
 * The loops of the nine transforms, the transforms as maps between frames and bytes, and the codecs
 * that combine one or two of them with LZ4.
 *
 * A 16-bit view of a byte buffer, which the C code gets by a cast or by storing both halves of each
 * pixel, is an array of pixels here; `ToBytes` and `FromBytes` are the bytes it stands for.
 */
module Transforms {
  import opened Arith
  import opened Bytes
  import opened Lz4
  import opened Pixels
  import opened Predictors
  import opened Quantise

  // ---------------------------------------------------------------- loops over neighbours

  lemma InRow(row: nat, h: nat, y: nat, col: nat)
    requires y < h && col < row
    ensures 0 <= y * row && y * row + col < h * row && y * row + row <= h * row
    ensures Column(y * row + col, row) == col && (y * row >= row <==> y > 0)
  {
    ScaleMonotone(row, y + 1, h);
    ProductNonNegative(y, row);
    assert row * (y + 1) == y * row + row && row * h == h * row && row * y == y * row;
    DivModUnique(y * row + col, row, y, col);
    if y > 0 {
      ScaleUp(row, y);
    } else {
      assert y * row == 0;
    }
  }

  /** The forward loop body. */
  method ForwardOne<E>(k: Rule<E>, src: array<E>, row: nat, h: nat, dst: array<E>, y: nat, col: nat)
    requires k.stride > 0 && src.Length == h * row == dst.Length && src != dst && y < h && col < row
    requires 0 <= y * row + col < h * row
    requires dst[..y * row + col] == Residuals(k, row, src[..])[..y * row + col]
    modifies dst
    ensures dst[..y * row + col + 1] == Residuals(k, row, src[..])[..y * row + col + 1]
  {
    InRow(row, h, y, col);
    var i := y * row + col;
    var a := if col >= k.stride then src[i - k.stride] else k.zero;
    var b := if y > 0 then src[i - row] else k.zero;
    var c := if y > 0 && col >= k.stride then src[i - row - k.stride] else k.zero;
    dst[i] := k.residual(src[i], a, b, c);
    assert dst[i] == Residuals(k, row, src[..])[i];
  }

  /** The forward loop nest: each element against its original neighbours. */
  method ForwardElements<E>(k: Rule<E>, src: array<E>, row: nat, h: nat, dst: array<E>)
    requires k.stride > 0 && row > 0 && src.Length == h * row == dst.Length && src != dst
    modifies dst
    ensures dst[..] == Residuals(k, row, src[..])
  {
    ghost var r := Residuals(k, row, src[..]);
    for y := 0 to h
      invariant 0 <= y * row <= h * row && dst[..y * row] == r[..y * row]
    {
      assert (y + 1) * row == y * row + row;
      InRow(row, h, y, 0);
      for col := 0 to row
        invariant 0 <= y * row + col <= h * row && dst[..y * row + col] == r[..y * row + col]
      {
        InRow(row, h, y, col);
        ForwardOne(k, src, row, h, dst, y, col);
      }
    }
    assert dst[..h * row] == dst[..] && r[..h * row] == r;
  }

  /** The inverse loop body. */
  method InverseOne<E>(k: Rule<E>, src: array<E>, row: nat, h: nat, dst: array<E>, y: nat, col: nat)
    requires k.stride > 0 && src.Length == h * row == dst.Length && src != dst && y < h && col < row
    requires 0 <= y * row + col < h * row
    requires dst[..y * row + col] == Restored(k, row, src[..], y * row + col)
    modifies dst
    ensures dst[..y * row + col + 1] == Restored(k, row, src[..], y * row + col + 1)
  {
    InRow(row, h, y, col);
    var i := y * row + col;
    ghost var before := dst[..i];
    var a := if col >= k.stride then dst[i - k.stride] else k.zero;
    var b := if y > 0 then dst[i - row] else k.zero;
    var c := if y > 0 && col >= k.stride then dst[i - row - k.stride] else k.zero;
    dst[i] := k.restore(src[i], a, b, c);
    assert dst[i] == RestoredFrom(k, row, before, i, src[i]);
    assert dst[..i + 1] == before + [dst[i]];
  }

  /** The inverse loop nest reads only elements it has already rebuilt. */
  method InverseElements<E>(k: Rule<E>, src: array<E>, row: nat, h: nat, dst: array<E>)
    requires k.stride > 0 && row > 0 && src.Length == h * row == dst.Length && src != dst
    modifies dst
    ensures dst[..] == Restored(k, row, src[..], h * row)
  {
    for y := 0 to h
      invariant 0 <= y * row <= h * row && dst[..y * row] == Restored(k, row, src[..], y * row)
    {
      assert (y + 1) * row == y * row + row;
      InRow(row, h, y, 0);
      for col := 0 to row
        invariant 0 <= y * row + col <= h * row
        invariant dst[..y * row + col] == Restored(k, row, src[..], y * row + col)
      {
        InRow(row, h, y, col);
        InverseOne(k, src, row, h, dst, y, col);
      }
    }
    assert dst[..h * row] == dst[..];
  }

  // ---------------------------------------------------------------- loops with a running previous pixel

  /** Rules that look only to the left keep the previous pixel in a variable. */
  ghost predicate LooksLeft<E(!new)>(k: Rule<E>) {
    && k.stride == 1
    && (forall x, a, b, c :: k.residual(x, a, b, c) == k.residual(x, a, k.zero, k.zero))
    && (forall x, a, b, c :: k.restore(x, a, b, c) == k.restore(x, a, k.zero, k.zero))
  }

  lemma DifferenceLooksLeft<E(!new)>(zero: E, sub: (E, E) -> E, add: (E, E) -> E)
    ensures LooksLeft(DifferenceRule(1, zero, sub, add, LeftOnly))
  {
    var k := DifferenceRule(1, zero, sub, add, LeftOnly);
    forall x: E, a: E, b: E, c: E
      ensures k.residual(x, a, b, c) == k.residual(x, a, k.zero, k.zero)
      ensures k.restore(x, a, b, c) == k.restore(x, a, k.zero, k.zero)
    {
      assert LeftOnly(a, b, c) == LeftOnly(a, zero, zero);
    }
  }

  lemma ChannelLooksLeft(sub: (u8, u8, u8) -> u8, add: (u8, u8, u8) -> u8)
    ensures LooksLeft(ChannelRule(sub, add, LeftOnly))
  {
  }

  /** The four rules the C code runs with a previous-pixel variable. */
  lemma LeftRules()
    ensures LooksLeft(SUB_PIXELS) && LooksLeft(XOR_PIXELS) && LooksLeft(SUB_CHANNELS) && LooksLeft(XOR_CHANNELS)
  {
    DifferenceLooksLeft(0, SubPixel, AddPixel);
    DifferenceLooksLeft(0, Xor, Xor);
    ChannelLooksLeft(SubMasked, AddMasked);
    ChannelLooksLeft(XorMasked, XorMasked);
  }

  method ForwardRunning(k: Rule<pixel>, src: array<pixel>, w: nat, h: nat, dst: array<pixel>)
    requires LooksLeft(k) && w > 0 && src.Length == h * w == dst.Length && src != dst
    modifies dst
    ensures dst[..] == Residuals(k, w, src[..])
  {
    ghost var r := Residuals(k, w, src[..]);
    for y := 0 to h
      invariant 0 <= y * w <= h * w && dst[..y * w] == r[..y * w]
    {
      assert (y + 1) * w == y * w + w;
      InRow(w, h, y, 0);
      var prev := k.zero;
      for x := 0 to w
        invariant 0 <= y * w + x <= h * w && dst[..y * w + x] == r[..y * w + x]
        invariant x > 0 ==> prev == src[y * w + x - 1]
      {
        InRow(w, h, y, x);
        var i := y * w + x;
        var cur := src[i];
        var left := if x > 0 then prev else k.zero;
        dst[i] := k.residual(cur, left, k.zero, k.zero);
        assert dst[i] == r[i];
        assert dst[..i + 1] == dst[..i] + [dst[i]] && r[..i + 1] == r[..i] + [r[i]];
        prev := cur;
      }
    }
    assert dst[..h * w] == dst[..] && r[..h * w] == r;
  }

  /** The inverse loop body with the left neighbour in hand. */
  method RestoreNext(k: Rule<pixel>, src: array<pixel>, w: nat, dst: array<pixel>, i: nat, x: nat, left: pixel)
    returns (cur: pixel)
    requires LooksLeft(k) && w > 0 && i < src.Length == dst.Length && src != dst && x == Column(i, w)
    requires left == if x > 0 then dst[i - 1] else k.zero
    requires dst[..i] == Restored(k, w, src[..], i)
    modifies dst
    ensures dst[..i + 1] == Restored(k, w, src[..], i + 1) && cur == dst[i]
  {
    ghost var before := dst[..i];
    cur := k.restore(src[i], left, k.zero, k.zero);
    dst[i] := cur;
    assert cur == RestoredFrom(k, w, before, i, src[i]);
    assert dst[..i + 1] == before + [dst[i]];
  }

  method InverseRunning(k: Rule<pixel>, src: array<pixel>, w: nat, h: nat, dst: array<pixel>)
    requires LooksLeft(k) && w > 0 && src.Length == h * w == dst.Length && src != dst
    modifies dst
    ensures dst[..] == Restored(k, w, src[..], h * w)
  {
    for y := 0 to h
      invariant 0 <= y * w <= h * w && dst[..y * w] == Restored(k, w, src[..], y * w)
    {
      assert (y + 1) * w == y * w + w;
      InRow(w, h, y, 0);
      var prev := k.zero;
      for x := 0 to w
        invariant 0 <= y * w + x <= h * w && dst[..y * w + x] == Restored(k, w, src[..], y * w + x)
        invariant x > 0 ==> prev == dst[y * w + x - 1]
      {
        InRow(w, h, y, x);
        var left := if x > 0 then prev else k.zero;
        var cur := RestoreNext(k, src, w, dst, y * w + x, x, left);
        prev := cur;
      }
    }
    assert dst[..h * w] == dst[..];
  }

  // ---------------------------------------------------------------- byte shuffle

  function ShuffledAt(b: seq<u8>, i: nat): u8
    requires |b| % 2 == 0 && i < |b|
  {
    if i < |b| / 2 then b[2 * i] else b[2 * (i - |b| / 2) + 1]
  }

  /** All low bytes, then all high bytes. */
  function Shuffled(b: seq<u8>): (s: seq<u8>)
    requires |b| % 2 == 0
    ensures |s| == |b|
  {
    seq(|b|, i requires 0 <= i < |b| => ShuffledAt(b, i))
  }

  function UnshuffledAt(s: seq<u8>, i: nat): u8
    requires |s| % 2 == 0 && i < |s|
  {
    if i % 2 == 0 then s[i / 2] else s[|s| / 2 + i / 2]
  }

  function Unshuffled(s: seq<u8>): (b: seq<u8>)
    requires |s| % 2 == 0
    ensures |b| == |s|
  {
    seq(|s|, i requires 0 <= i < |s| => UnshuffledAt(s, i))
  }

  method ShuffleForward(bytes: array<u8>, dst: array<u8>)
    requires bytes.Length % 2 == 0 && dst.Length == bytes.Length && bytes != dst
    modifies dst
    ensures dst[..] == Shuffled(bytes[..])
  {
    var n := bytes.Length / 2;
    for i := 0 to n
      invariant forall j :: 0 <= j < i ==> dst[j] == bytes[2 * j] && dst[n + j] == bytes[2 * j + 1]
    {
      dst[i] := bytes[2 * i];
      dst[n + i] := bytes[2 * i + 1];
    }
    forall i | 0 <= i < 2 * n
      ensures dst[i] == ShuffledAt(bytes[..], i)
    {
      if i >= n {
        assert dst[n + (i - n)] == bytes[2 * (i - n) + 1];
      }
    }
  }

  method ShuffleInverse(src: array<u8>, bytes: array<u8>)
    requires src.Length % 2 == 0 && bytes.Length == src.Length && bytes != src
    modifies bytes
    ensures bytes[..] == Unshuffled(src[..])
  {
    var n := src.Length / 2;
    for i := 0 to n
      invariant forall j :: 0 <= j < 2 * i ==> bytes[j] == UnshuffledAt(src[..], j)
    {
      bytes[2 * i] := src[i];
      bytes[2 * i + 1] := src[n + i];
    }
  }

  lemma UnshuffleShuffled(b: seq<u8>)
    requires |b| % 2 == 0
    ensures Unshuffled(Shuffled(b)) == b
  {
    forall i | 0 <= i < |b|
      ensures UnshuffledAt(Shuffled(b), i) == b[i]
    {
      var k := if i % 2 == 0 then i / 2 else |b| / 2 + i / 2;
      assert UnshuffledAt(Shuffled(b), i) == Shuffled(b)[k] == ShuffledAt(b, k);
    }
  }

  lemma ShuffleUnshuffled(s: seq<u8>)
    requires |s| % 2 == 0
    ensures Shuffled(Unshuffled(s)) == s
  {
    forall i | 0 <= i < |s|
      ensures ShuffledAt(Unshuffled(s), i) == s[i]
    {
      var k := if i < |s| / 2 then 2 * i else 2 * (i - |s| / 2) + 1;
      assert ShuffledAt(Unshuffled(s), i) == Unshuffled(s)[k] == UnshuffledAt(s, k);
    }
  }

  // ---------------------------------------------------------------- the nine transforms

  datatype Name =
    | SubByteT | U16SubT | U16XorT | PaethByteT | PaethPixelT | MedT | ChannelSubT | ChannelXorT | ShuffleT

  /** The bytes a transform produces for a frame of width w. */
  function Forward(t: Name, f: Frame, w: nat): (b: seq<u8>)
    ensures |b| == 2 * |f|
  {
    if w == 0 then ToBytes(f) else
    match t
    case SubByteT => Residuals(SUB_BYTES, 2 * w, ToBytes(f))
    case PaethByteT => Residuals(PAETH_BYTES, 2 * w, ToBytes(f))
    case U16SubT => ToBytes(Residuals(SUB_PIXELS, w, f))
    case U16XorT => ToBytes(Residuals(XOR_PIXELS, w, f))
    case PaethPixelT => ToBytes(Residuals(PAETH_PIXELS, w, f))
    case MedT => ToBytes(Residuals(MED_PIXELS, w, f))
    case ChannelSubT => ToBytes(Residuals(SUB_CHANNELS, w, f))
    case ChannelXorT => ToBytes(Residuals(XOR_CHANNELS, w, f))
    case ShuffleT => Shuffled(ToBytes(f))
  }

  function RestoredPixels(k: Rule<pixel>, b: seq<u8>, w: nat): (f: Frame)
    requires k.stride > 0 && w > 0 && |b| % 2 == 0
    ensures 2 * |f| == |b|
  {
    Restored(k, w, FromBytes(b), |b| / 2)
  }

  function Inverse(t: Name, b: seq<u8>, w: nat): (f: Frame)
    requires |b| % 2 == 0
    ensures 2 * |f| == |b|
  {
    if w == 0 then FromBytes(b) else
    match t
    case SubByteT => FromBytes(Restored(SUB_BYTES, 2 * w, b, |b|))
    case PaethByteT => FromBytes(Restored(PAETH_BYTES, 2 * w, b, |b|))
    case U16SubT => RestoredPixels(SUB_PIXELS, b, w)
    case U16XorT => RestoredPixels(XOR_PIXELS, b, w)
    case PaethPixelT => RestoredPixels(PAETH_PIXELS, b, w)
    case MedT => RestoredPixels(MED_PIXELS, b, w)
    case ChannelSubT => RestoredPixels(SUB_CHANNELS, b, w)
    case ChannelXorT => RestoredPixels(XOR_CHANNELS, b, w)
    case ShuffleT => FromBytes(Unshuffled(b))
  }

  lemma BytesBijective(k: Rule<u8>, row: nat, f: Frame, b: seq<u8>)
    requires Reversible(k) && row > 0 && |b| % 2 == 0
    ensures FromBytes(Restored(k, row, Residuals(k, row, ToBytes(f)), 2 * |f|)) == f
    ensures Residuals(k, row, ToBytes(FromBytes(Restored(k, row, b, |b|)))) == b
  {
    RestoreResiduals(k, row, ToBytes(f), 2 * |f|);
    assert ToBytes(f)[..2 * |f|] == ToBytes(f);
    FromToBytes(f);
    ToFromBytes(Restored(k, row, b, |b|));
    ResidualsOfRestored(k, row, b);
  }

  lemma PixelsBijective(k: Rule<pixel>, w: nat, f: Frame, b: seq<u8>)
    requires Reversible(k) && w > 0 && |b| % 2 == 0
    ensures RestoredPixels(k, ToBytes(Residuals(k, w, f)), w) == f
    ensures ToBytes(Residuals(k, w, RestoredPixels(k, b, w))) == b
  {
    FromToBytes(Residuals(k, w, f));
    RestoreResiduals(k, w, f, |f|);
    assert f[..|f|] == f;
    ResidualsOfRestored(k, w, FromBytes(b));
    ToFromBytes(b);
  }

  /** Every transform is a bijection: each direction undoes the other, for every width and every frame. */
  lemma TransformBijective(t: Name, f: Frame, b: seq<u8>, w: nat)
    requires |b| % 2 == 0
    ensures Inverse(t, Forward(t, f, w), w) == f
    ensures Forward(t, Inverse(t, b, w), w) == b
  {
    RulesReversible();
    if w == 0 {
      FromToBytes(f);
      ToFromBytes(b);
    } else {
      match t
      case SubByteT => BytesBijective(SUB_BYTES, 2 * w, f, b);
      case PaethByteT => BytesBijective(PAETH_BYTES, 2 * w, f, b);
      case U16SubT => PixelsBijective(SUB_PIXELS, w, f, b);
      case U16XorT => PixelsBijective(XOR_PIXELS, w, f, b);
      case PaethPixelT => PixelsBijective(PAETH_PIXELS, w, f, b);
      case MedT => PixelsBijective(MED_PIXELS, w, f, b);
      case ChannelSubT => PixelsBijective(SUB_CHANNELS, w, f, b);
      case ChannelXorT => PixelsBijective(XOR_CHANNELS, w, f, b);
      case ShuffleT =>
        UnshuffleShuffled(ToBytes(f));
        FromToBytes(f);
        ShuffleUnshuffled(b);
        ToFromBytes(Unshuffled(b));
    }
  }

  // ---------------------------------------------------------------- codecs

  /** A step of a codec: a predictor, or a quantiser whose inverse only reinterprets the bytes. */
  datatype StepKind = Predict(name: Name) | QuantMild | QuantModerate

  function StepForward(s: StepKind, f: Frame, w: nat): (b: seq<u8>)
    ensures |b| == 2 * |f|
  {
    match s
    case Predict(t) => Forward(t, f, w)
    case QuantMild => ToBytes(MildFrame(f))
    case QuantModerate => ToBytes(ModerateFrame(f))
  }

  function StepInverse(s: StepKind, b: seq<u8>, w: nat): (f: Frame)
    requires |b| % 2 == 0
    ensures 2 * |f| == |b|
  {
    match s
    case Predict(t) => Inverse(t, b, w)
    case _ => FromBytes(b)
  }

  /** What survives a step: everything for a predictor, the quantised frame for a quantiser. */
  function Survives(s: StepKind, f: Frame): Frame {
    match s
    case Predict(_) => f
    case QuantMild => MildFrame(f)
    case QuantModerate => ModerateFrame(f)
  }

  lemma StepRoundTrip(s: StepKind, f: Frame, w: nat)
    ensures StepInverse(s, StepForward(s, f, w), w) == Survives(s, f)
  {
    match s
    case Predict(t) => TransformBijective(t, f, [], w);
    case QuantMild => FromToBytes(MildFrame(f));
    case QuantModerate => FromToBytes(ModerateFrame(f));
  }

  /** The payload as a frame of n pixels, as both decoders check it. */
  function Unpacked(lz: Codec<u8>, data: seq<u8>, n: nat): (r: Option<seq<u8>>)
    ensures r.Some? ==> |r.value| == 2 * n
  {
    var out := Decompress(lz, data, 2 * n);
    if out.Some? && |out.value| == 2 * n then out else None
  }

  function OneStepEncode(lz: Codec<u8>, s: StepKind, f: Frame, w: nat, cap: nat): Option<seq<u8>> {
    Compress(lz, StepForward(s, f, w), cap)
  }

  function OneStepDecode(lz: Codec<u8>, s: StepKind, data: seq<u8>, w: nat, h: nat): (r: Option<Frame>)
    ensures r.Some? ==> |r.value| == w * h
  {
    var out := Unpacked(lz, data, w * h);
    if out.None? then None else Some(StepInverse(s, out.value, w))
  }

  function TwoStepEncode(lz: Codec<u8>, s1: StepKind, s2: StepKind, f: Frame, w: nat, cap: nat): Option<seq<u8>> {
    Compress(lz, StepForward(s2, FromBytes(StepForward(s1, f, w)), w), cap)
  }

  function TwoStepDecode(lz: Codec<u8>, s1: StepKind, s2: StepKind, data: seq<u8>, w: nat, h: nat): (r: Option<Frame>)
    ensures r.Some? ==> |r.value| == w * h
  {
    var out := Unpacked(lz, data, w * h);
    if out.None? then None else Some(StepInverse(s1, ToBytes(StepInverse(s2, out.value, w)), w))
  }

  /** One step and LZ4: lossless for a predictor; a quantiser costs exactly the quantisation. */
  lemma OneStepRoundTrip(lz: Codec<u8>, s: StepKind, f: Frame, w: nat, h: nat, cap: nat)
    requires Faithful(lz) && |f| == w * h && OneStepEncode(lz, s, f, w, cap).Some?
    ensures OneStepDecode(lz, s, OneStepEncode(lz, s, f, w, cap).value, w, h) == Some(Survives(s, f))
  {
    CompressUndone(lz, StepForward(s, f, w), cap);
    StepRoundTrip(s, f, w);
  }

  /** Quantise-then-predict, or any pair whose second step is a predictor, decodes to what the first step keeps. */
  lemma TwoStepRoundTrip(lz: Codec<u8>, s: StepKind, t: Name, f: Frame, w: nat, h: nat, cap: nat)
    requires Faithful(lz) && |f| == w * h && TwoStepEncode(lz, s, Predict(t), f, w, cap).Some?
    ensures TwoStepDecode(lz, s, Predict(t), TwoStepEncode(lz, s, Predict(t), f, w, cap).value, w, h)
         == Some(Survives(s, f))
  {
    var a := StepForward(s, f, w);
    CompressUndone(lz, StepForward(Predict(t), FromBytes(a), w), cap);
    StepRoundTrip(Predict(t), FromBytes(a), w);
    ToFromBytes(a);
    StepRoundTrip(s, f, w);
  }

  /** With a buffer of the compression bound neither encoder fails. */
  lemma EncodersSucceed(lz: Codec<u8>, s1: StepKind, s2: StepKind, f: Frame, w: nat, cap: nat)
    requires Faithful(lz) && Roomy(lz, 2 * |f|, cap)
    ensures OneStepEncode(lz, s1, f, w, cap).Some? && TwoStepEncode(lz, s1, s2, f, w, cap).Some?
  {
    CompressSucceeds(lz, StepForward(s1, f, w), cap);
    CompressSucceeds(lz, StepForward(s2, FromBytes(StepForward(s1, f, w)), w), cap);
  }

  // ---------------------------------------------------------------- what the codecs send

  /** What decompressing the payload of one step gives: the bytes of the transform, or the quantised pixels. */
  lemma OneStepSends(lz: Codec<u8>, s: StepKind, f: Frame, w: nat, cap: nat)
    requires Faithful(lz) && OneStepEncode(lz, s, f, w, cap).Some?
    ensures Decompress(lz, OneStepEncode(lz, s, f, w, cap).value, 2 * |f|)
         == Some(match s
                 case Predict(t) => Forward(t, f, w)
                 case QuantMild => ToBytes(MildFrame(f))
                 case QuantModerate => ToBytes(ModerateFrame(f)))
  {
    CompressUndone(lz, StepForward(s, f, w), cap);
  }

  /** And that of a quantiser followed by a transform: the bytes of the transform of the quantised frame. */
  lemma TwoStepSends(lz: Codec<u8>, s: StepKind, t: Name, f: Frame, w: nat, cap: nat)
    requires Faithful(lz) && !s.Predict? && TwoStepEncode(lz, s, Predict(t), f, w, cap).Some?
    ensures Decompress(lz, TwoStepEncode(lz, s, Predict(t), f, w, cap).value, 2 * |f|)
         == Some(Forward(t, if s.QuantMild? then MildFrame(f) else ModerateFrame(f), w))
  {
    CompressUndone(lz, StepForward(Predict(t), FromBytes(StepForward(s, f, w)), w), cap);
    FromToBytes(Survives(s, f));
  }

  /** Any payload is decoded exactly when it decompresses to the bytes of a frame, which are those the frame sends. */
  lemma AnyPayload(lz: Codec<u8>, t: Name, data: seq<u8>, w: nat, h: nat)
    ensures var out, shown := Decompress(lz, data, 2 * (w * h)), OneStepDecode(lz, Predict(t), data, w, h);
            && (shown.Some? <==> out.Some? && |out.value| == 2 * (w * h))
            && (shown.Some? ==> Forward(t, shown.value, w) == out.value)
  {
    var out := Unpacked(lz, data, w * h);
    if out.Some? {
      TransformBijective(t, [], out.value, w);
    }
  }
}
