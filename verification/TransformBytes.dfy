/**
 * What each of the nine transforms writes, byte by byte and pixel by pixel. Together with bijectivity this
 * also fixes the inverses. Words are little-endian; channels are bits 11 to 15, 5 to 10 and 0 to 4.
 */
module TransformBytes {
  import opened Pixels
  import opened Predictors
  import opened Transforms

  // ---------------------------------------------------------------- bytes and words

  function ByteOf(f: Frame, j: nat): u8
    requires j < 2 * |f|
  {
    if j % 2 == 0 then (f[j / 2] & 0xff) as u8 else (f[j / 2] >> 8) as u8
  }

  function WordAt(b: seq<u8>, i: nat): pixel
    requires 2 * i + 1 < |b|
  {
    (b[2 * i] as pixel) | ((b[2 * i + 1] as pixel) << 8)
  }

  lemma HighByteIs(p: pixel)
    ensures HighByte(p) == (p >> 8) as u8
  {
  }

  /** A frame in memory is its pixels' low and high bytes in turn. */
  lemma MemoryIs(f: Frame, j: nat)
    requires j < 2 * |f|
    ensures ToBytes(f)[j] == ByteOf(f, j)
  {
    HighByteIs(f[j / 2]);
  }

  lemma JoinedWord(p: pixel)
    ensures (LowByte(p) as pixel) | ((HighByte(p) as pixel) << 8) == p
  {
  }

  lemma WordOfBytes(f: Frame, i: nat)
    requires i < |f|
    ensures WordAt(ToBytes(f), i) == f[i]
  {
    assert ToBytes(f)[2 * i] == LowByte(f[i]) && ToBytes(f)[2 * i + 1] == HighByte(f[i]);
    JoinedWord(f[i]);
  }

  // ---------------------------------------------------------------- neighbours

  /** The element to the left in a row of `row` elements, `stride` back; zero at the start of the row. */
  function LeftOf<E>(x: seq<E>, row: nat, stride: nat, i: nat, zero: E): E
    requires row > 0 && i < |x|
  {
    if i % row >= stride && i >= stride then x[i - stride] else zero
  }

  function AboveOf<E>(x: seq<E>, row: nat, i: nat, zero: E): E
    requires row > 0 && i < |x|
  {
    if i >= row then x[i - row] else zero
  }

  function AboveLeftOf<E>(x: seq<E>, row: nat, stride: nat, i: nat, zero: E): E
    requires row > 0 && i < |x|
  {
    if i >= row && i % row >= stride && i >= row + stride then x[i - row - stride] else zero
  }

  lemma RowStarts(i: nat, row: nat)
    requires row > 0
    ensures i - i % row >= row <==> i >= row
    ensures i % row <= i && (i >= row ==> i % row <= i - row)
  {
    if i >= row {
      assert i == row * (i / row) + i % row;
      assert i / row >= 1;
      assert row * (i / row) >= row;
    }
  }

  lemma ResidualAt<E>(k: Rule<E>, row: nat, x: seq<E>, i: nat)
    requires k.stride > 0 && row > 0 && i < |x|
    ensures Residuals(k, row, x)[i]
         == k.residual(x[i], LeftOf(x, row, k.stride, i, k.zero), AboveOf(x, row, i, k.zero),
                       AboveLeftOf(x, row, k.stride, i, k.zero))
  {
    RowStarts(i, row);
  }

  // ---------------------------------------------------------------- differences to the left

  lemma DifferenceResidual<E>(
    stride: nat, zero: E, sub: (E, E) -> E, add: (E, E) -> E, predict: (E, E, E) -> E, x: E, a: E, b: E, c: E)
    ensures DifferenceRule(stride, zero, sub, add, predict).residual(x, a, b, c) == sub(x, predict(a, b, c))
  {
  }

  lemma LeftResidual<E>(stride: nat, zero: E, sub: (E, E) -> E, add: (E, E) -> E, x: E, a: E, b: E, c: E)
    ensures DifferenceRule(stride, zero, sub, add, LeftOnly).residual(x, a, b, c) == sub(x, a)
  {
    DifferenceResidual(stride, zero, sub, add, LeftOnly, x, a, b, c);
    assert LeftOnly(a, b, c) == a;
  }

  lemma SubBytesRule(x: u8, a: u8, b: u8, c: u8)
    ensures DiffersByte(SUB_BYTES.residual(x, a, b, c), x, a) && SUB_BYTES.stride == 2 && SUB_BYTES.zero == 0
  {
    LeftResidual(2, 0, SubByte, AddByte, x, a, b, c);
  }

  predicate Differs(word: pixel, p: pixel, left: pixel) {
    word == p - left
  }

  lemma SubPixelsRule(x: pixel, a: pixel, b: pixel, c: pixel)
    ensures Differs(SUB_PIXELS.residual(x, a, b, c), x, a) && SUB_PIXELS.stride == 1 && SUB_PIXELS.zero == 0
  {
    LeftResidual(1, 0, SubPixel, AddPixel, x, a, b, c);
  }

  lemma XorPixelsRule(x: pixel, a: pixel, b: pixel, c: pixel)
    ensures XOR_PIXELS.residual(x, a, b, c) == x ^ a && XOR_PIXELS.stride == 1 && XOR_PIXELS.zero == 0
  {
    LeftResidual(1, 0, Xor, Xor, x, a, b, c);
  }

  /** A byte rule writes its residuals over the bytes of the frame, in rows of 2 * w. */
  lemma ByteWritten(k: Rule<u8>, f: Frame, w: nat, j: nat, left: u8, above: u8, aboveLeft: u8)
    requires k.stride == 2 && k.zero == 0 && w > 0 && j < 2 * |f|
    requires left == LeftOf(ToBytes(f), 2 * w, 2, j, 0) && above == AboveOf(ToBytes(f), 2 * w, j, 0)
    requires aboveLeft == AboveLeftOf(ToBytes(f), 2 * w, 2, j, 0)
    ensures Residuals(k, 2 * w, ToBytes(f))[j] == k.residual(ByteOf(f, j), left, above, aboveLeft)
  {
    ResidualAt(k, 2 * w, ToBytes(f), j);
    MemoryIs(f, j);
  }

  predicate DiffersByte(r: u8, x: u8, left: u8) {
    r == x - left
  }

  /** Bytes minus the byte two back in the row. */
  lemma SubByteWrites(f: Frame, w: nat, j: nat)
    requires w > 0 && j < 2 * |f|
    ensures DiffersByte(Forward(SubByteT, f, w)[j], ByteOf(f, j), LeftOf(ToBytes(f), 2 * w, 2, j, 0))
  {
    var b, row := ToBytes(f), 2 * w;
    var left, above, aboveLeft := LeftOf(b, row, 2, j, 0), AboveOf(b, row, j, 0), AboveLeftOf(b, row, 2, j, 0);
    SubBytesRule(ByteOf(f, j), left, above, aboveLeft);
    ByteWritten(SUB_BYTES, f, w, j, left, above, aboveLeft);
  }

  /** A pixel rule writes its residuals as words. */
  lemma WordWritten(k: Rule<pixel>, f: Frame, w: nat, i: nat, left: pixel, above: pixel, aboveLeft: pixel)
    requires k.stride == 1 && k.zero == 0 && w > 0 && i < |f|
    requires left == LeftOf(f, w, 1, i, 0) && above == AboveOf(f, w, i, 0) && aboveLeft == AboveLeftOf(f, w, 1, i, 0)
    ensures WordAt(ToBytes(Residuals(k, w, f)), i) == k.residual(f[i], left, above, aboveLeft)
  {
    ResidualAt(k, w, f, i);
    WordOfBytes(Residuals(k, w, f), i);
  }

  /** Pixels minus the pixel to the left. */
  lemma U16SubWrites(f: Frame, w: nat, i: nat)
    requires w > 0 && i < |f|
    ensures Differs(WordAt(Forward(U16SubT, f, w), i), f[i], LeftOf(f, w, 1, i, 0))
  {
    var left, above, aboveLeft := LeftOf(f, w, 1, i, 0), AboveOf(f, w, i, 0), AboveLeftOf(f, w, 1, i, 0);
    SubPixelsRule(f[i], left, above, aboveLeft);
    WordWritten(SUB_PIXELS, f, w, i, left, above, aboveLeft);
  }

  /** Pixels exclusive-or the pixel to the left. */
  lemma U16XorWrites(f: Frame, w: nat, i: nat)
    requires w > 0 && i < |f|
    ensures WordAt(Forward(U16XorT, f, w), i) == f[i] ^ LeftOf(f, w, 1, i, 0)
  {
    var left, above, aboveLeft := LeftOf(f, w, 1, i, 0), AboveOf(f, w, i, 0), AboveLeftOf(f, w, 1, i, 0);
    XorPixelsRule(f[i], left, above, aboveLeft);
    WordWritten(XOR_PIXELS, f, w, i, left, above, aboveLeft);
  }

  // ---------------------------------------------------------------- separate channels

  function RedOf(p: pixel): pixel { p >> 11 }

  function GreenOf(p: pixel): pixel { (p >> 5) & 0x3f }

  function BlueOf(p: pixel): pixel { p & 0x1f }

  /** The three channels of the word, each the difference within its own bits. */
  predicate ChannelsDiffer(word: pixel, p: pixel, left: pixel) {
    && RedOf(word) == (RedOf(p) - RedOf(left)) & 0x1f
    && GreenOf(word) == (GreenOf(p) - GreenOf(left)) & 0x3f
    && BlueOf(word) == (BlueOf(p) - BlueOf(left)) & 0x1f
  }

  predicate ChannelsXor(word: pixel, p: pixel, left: pixel) {
    && RedOf(word) == RedOf(p) ^ RedOf(left)
    && GreenOf(word) == GreenOf(p) ^ GreenOf(left)
    && BlueOf(word) == BlueOf(p) ^ BlueOf(left)
  }

  lemma SubChannelsBits(p: pixel, a: pixel)
    ensures ChannelsDiffer(Pack(SubMasked(Red(p), Red(a), 0x1f), SubMasked(Green(p), Green(a), 0x3f),
                                SubMasked(Blue(p), Blue(a), 0x1f)), p, a)
  {
  }

  lemma XorRed(p: pixel, a: pixel, g: u8, b: u8)
    ensures RedOf(Pack(XorMasked(Red(p), Red(a), 0x1f), g, b)) == RedOf(p) ^ RedOf(a)
  {
  }

  lemma XorGreen(p: pixel, a: pixel, r: u8, b: u8)
    ensures GreenOf(Pack(r, XorMasked(Green(p), Green(a), 0x3f), b)) == GreenOf(p) ^ GreenOf(a)
  {
  }

  lemma XorBlue(p: pixel, a: pixel, r: u8, g: u8)
    ensures BlueOf(Pack(r, g, XorMasked(Blue(p), Blue(a), 0x1f))) == BlueOf(p) ^ BlueOf(a)
  {
  }

  lemma XorChannelsBits(p: pixel, a: pixel)
    ensures ChannelsXor(Pack(XorMasked(Red(p), Red(a), 0x1f), XorMasked(Green(p), Green(a), 0x3f),
                             XorMasked(Blue(p), Blue(a), 0x1f)), p, a)
  {
    var r, g := XorMasked(Red(p), Red(a), 0x1f), XorMasked(Green(p), Green(a), 0x3f);
    var b := XorMasked(Blue(p), Blue(a), 0x1f);
    XorRed(p, a, g, b);
    XorGreen(p, a, r, b);
    XorBlue(p, a, r, g);
  }

  lemma ChannelResidual(
    sub: (u8, u8, u8) -> u8, add: (u8, u8, u8) -> u8, predict: (u8, u8, u8) -> u8, x: pixel, a: pixel, b: pixel,
    c: pixel)
    ensures ChannelRule(sub, add, predict).residual(x, a, b, c)
         == Pack(sub(Red(x), predict(Red(a), Red(b), Red(c)), 0x1f),
                 sub(Green(x), predict(Green(a), Green(b), Green(c)), 0x3f),
                 sub(Blue(x), predict(Blue(a), Blue(b), Blue(c)), 0x1f))
  {
  }

  lemma SubChannelsRule(x: pixel, a: pixel, b: pixel, c: pixel)
    ensures ChannelsDiffer(SUB_CHANNELS.residual(x, a, b, c), x, a)
    ensures SUB_CHANNELS.stride == 1 && SUB_CHANNELS.zero == 0
  {
    ChannelResidual(SubMasked, AddMasked, LeftOnly, x, a, b, c);
    SubChannelsBits(x, a);
  }

  lemma XorChannelsRule(x: pixel, a: pixel, b: pixel, c: pixel)
    ensures ChannelsXor(XOR_CHANNELS.residual(x, a, b, c), x, a)
    ensures XOR_CHANNELS.stride == 1 && XOR_CHANNELS.zero == 0
  {
    ChannelResidual(XorMasked, XorMasked, LeftOnly, x, a, b, c);
    XorChannelsBits(x, a);
  }

  /** Channels minus those of the pixel to the left, each modulo its own range. */
  lemma ChannelSubWrites(f: Frame, w: nat, i: nat)
    requires w > 0 && i < |f|
    ensures ChannelsDiffer(WordAt(Forward(ChannelSubT, f, w), i), f[i], LeftOf(f, w, 1, i, 0))
  {
    var left, above, aboveLeft := LeftOf(f, w, 1, i, 0), AboveOf(f, w, i, 0), AboveLeftOf(f, w, 1, i, 0);
    SubChannelsRule(f[i], left, above, aboveLeft);
    WordWritten(SUB_CHANNELS, f, w, i, left, above, aboveLeft);
  }

  /** Channels exclusive-or those of the pixel to the left. */
  lemma ChannelXorWrites(f: Frame, w: nat, i: nat)
    requires w > 0 && i < |f|
    ensures ChannelsXor(WordAt(Forward(ChannelXorT, f, w), i), f[i], LeftOf(f, w, 1, i, 0))
  {
    var left, above, aboveLeft := LeftOf(f, w, 1, i, 0), AboveOf(f, w, i, 0), AboveLeftOf(f, w, 1, i, 0);
    XorChannelsRule(f[i], left, above, aboveLeft);
    WordWritten(XOR_CHANNELS, f, w, i, left, above, aboveLeft);
  }

  // ---------------------------------------------------------------- Paeth predictions

  /** v is the neighbour nearest to left + above - aboveLeft, in that order of preference. */
  predicate IsPaeth(v: int, a: int, b: int, c: int) {
    var p := a + b - c;
    && (v == a || v == b || v == c)
    && Distance(p, v) <= Distance(p, a) && Distance(p, v) <= Distance(p, b) && Distance(p, v) <= Distance(p, c)
    && (Distance(p, v) == Distance(p, a) ==> v == a)
    && (Distance(p, v) == Distance(p, b) ==> v == a || v == b)
  }

  lemma ByteOfInt(a: u8)
    ensures (a as int) as u8 == a
  {
  }

  lemma PixelOfInt(a: pixel)
    ensures (a as int) as pixel == a
  {
  }

  lemma PaethByteIs(a: u8, b: u8, c: u8)
    ensures PaethByte(a, b, c) as int == Paeth(a as int, b as int, c as int)
  {
    var v := Paeth(a as int, b as int, c as int);
    if v == a as int {
      ByteOfInt(a);
    } else if v == b as int {
      ByteOfInt(b);
    } else {
      ByteOfInt(c);
    }
  }

  lemma PaethPixelIs(a: pixel, b: pixel, c: pixel)
    ensures PaethPixel(a, b, c) as int == Paeth(a as int, b as int, c as int)
  {
    var v := Paeth(a as int, b as int, c as int);
    if v == a as int {
      PixelOfInt(a);
    } else if v == b as int {
      PixelOfInt(b);
    } else {
      PixelOfInt(c);
    }
  }

  predicate SumIsByte(r: u8, v: u8, x: u8) { r + v == x }

  predicate SumIsPixel(r: pixel, v: pixel, x: pixel) { r + v == x }

  /** x is r and a Paeth prediction added. */
  ghost predicate PaethResidualByte(r: u8, x: u8, a: u8, b: u8, c: u8) {
    exists v: u8 :: SumIsByte(r, v, x) && IsPaeth(v as int, a as int, b as int, c as int)
  }

  ghost predicate PaethResidualPixel(r: pixel, x: pixel, a: pixel, b: pixel, c: pixel) {
    exists v: pixel :: SumIsPixel(r, v, x) && IsPaeth(v as int, a as int, b as int, c as int)
  }

  /** Adding the prediction back gives the element. */
  lemma AddedBack<E(!new)>(
    stride: nat, zero: E, sub: (E, E) -> E, add: (E, E) -> E, predict: (E, E, E) -> E, x: E, a: E, b: E, c: E)
    requires Predictors.Inverse(add, sub)
    ensures add(DifferenceRule(stride, zero, sub, add, predict).residual(x, a, b, c), predict(a, b, c)) == x
  {
  }

  lemma FoundByte(r: u8, x: u8, a: u8, b: u8, c: u8, v: u8)
    requires SumIsByte(r, v, x) && v as int == Paeth(a as int, b as int, c as int)
    ensures PaethResidualByte(r, x, a, b, c)
  {
    PaethIsNearest(a as int, b as int, c as int);
    assert IsPaeth(v as int, a as int, b as int, c as int);
  }

  lemma FoundPixel(r: pixel, x: pixel, a: pixel, b: pixel, c: pixel, v: pixel)
    requires SumIsPixel(r, v, x) && v as int == Paeth(a as int, b as int, c as int)
    ensures PaethResidualPixel(r, x, a, b, c)
  {
    PaethIsNearest(a as int, b as int, c as int);
    assert IsPaeth(v as int, a as int, b as int, c as int);
  }

  lemma PaethBytesRule(x: u8, a: u8, b: u8, c: u8)
    ensures PaethResidualByte(PAETH_BYTES.residual(x, a, b, c), x, a, b, c)
    ensures PAETH_BYTES.stride == 2 && PAETH_BYTES.zero == 0
  {
    BytesAddBack();
    AddedBack(2, 0, SubByte, AddByte, PaethByte, x, a, b, c);
    PaethByteIs(a, b, c);
    FoundByte(PAETH_BYTES.residual(x, a, b, c), x, a, b, c, PaethByte(a, b, c));
  }

  lemma PaethPixelsRule(x: pixel, a: pixel, b: pixel, c: pixel)
    ensures PaethResidualPixel(PAETH_PIXELS.residual(x, a, b, c), x, a, b, c)
    ensures PAETH_PIXELS.stride == 1 && PAETH_PIXELS.zero == 0
  {
    PixelsAddBack();
    AddedBack(1, 0, SubPixel, AddPixel, PaethPixel, x, a, b, c);
    PaethPixelIs(a, b, c);
    FoundPixel(PAETH_PIXELS.residual(x, a, b, c), x, a, b, c, PaethPixel(a, b, c));
  }

  /** Bytes minus the Paeth prediction from the bytes of the pixels to the left and above. */
  lemma PaethByteWrites(f: Frame, w: nat, j: nat)
    requires w > 0 && j < 2 * |f|
    ensures var b, row := ToBytes(f), 2 * w;
            PaethResidualByte(Forward(PaethByteT, f, w)[j], ByteOf(f, j), LeftOf(b, row, 2, j, 0),
                              AboveOf(b, row, j, 0), AboveLeftOf(b, row, 2, j, 0))
  {
    var b, row := ToBytes(f), 2 * w;
    var left, above, aboveLeft := LeftOf(b, row, 2, j, 0), AboveOf(b, row, j, 0), AboveLeftOf(b, row, 2, j, 0);
    PaethBytesRule(ByteOf(f, j), left, above, aboveLeft);
    ByteWritten(PAETH_BYTES, f, w, j, left, above, aboveLeft);
  }

  /** Pixels minus the Paeth prediction from the pixels to the left and above. */
  lemma PaethPixelWrites(f: Frame, w: nat, i: nat)
    requires w > 0 && i < |f|
    ensures PaethResidualPixel(WordAt(Forward(PaethPixelT, f, w), i), f[i], LeftOf(f, w, 1, i, 0),
                               AboveOf(f, w, i, 0), AboveLeftOf(f, w, 1, i, 0))
  {
    var left, above, aboveLeft := LeftOf(f, w, 1, i, 0), AboveOf(f, w, i, 0), AboveLeftOf(f, w, 1, i, 0);
    PaethPixelsRule(f[i], left, above, aboveLeft);
    WordWritten(PAETH_PIXELS, f, w, i, left, above, aboveLeft);
  }

  // ---------------------------------------------------------------- median predictions

  /** What was subtracted within the channel's bits is the median of left, above, and left + above - aboveLeft. */
  predicate MedResidual(r: u8, x: u8, a: u8, b: u8, c: u8, mask: u8) {
    IsMedian(((x - r) & mask) as int, a as int, b as int, a as int + b as int - c as int)
  }

  lemma MedBetween(a: int, b: int, c: int)
    ensures a <= MedPredict(a, b, c) <= b || b <= MedPredict(a, b, c) <= a
  {
  }

  /** A number between two bytes survives becoming one. */
  lemma BetweenBytes(v: int, a: u8, b: u8)
    requires a as int <= v <= b as int
    ensures v % 0x100 == v && (v as u8) as int == v && v as u8 <= b
  {
  }

  lemma MedIs(a: u8, b: u8, c: u8)
    ensures Med(a, b, c) as int == MedPredict(a as int, b as int, c as int)
    ensures Med(a, b, c) <= a || Med(a, b, c) <= b
  {
    var v := MedPredict(a as int, b as int, c as int);
    MedBetween(a as int, b as int, c as int);
    if a as int <= v <= b as int {
      BetweenBytes(v, a, b);
    } else {
      BetweenBytes(v, b, a);
    }
  }

  lemma MaskedSubtrahend(x: u8, m: u8, mask: u8)
    requires (mask == 0x1f || mask == 0x3f) && m <= mask
    ensures (x - SubMasked(x, m, mask)) & mask == m
  {
  }

  lemma MedChannel(x: u8, a: u8, b: u8, c: u8, mask: u8)
    requires (mask == 0x1f || mask == 0x3f) && a <= mask && b <= mask
    ensures MedResidual(SubMasked(x, Med(a, b, c), mask), x, a, b, c, mask)
  {
    MedIs(a, b, c);
    MaskedSubtrahend(x, Med(a, b, c), mask);
    MedIsMedian(a as int, b as int, c as int);
  }

  predicate MedChannels(word: pixel, p: pixel, a: pixel, b: pixel, c: pixel) {
    && MedResidual(Red(word), Red(p), Red(a), Red(b), Red(c), 0x1f)
    && MedResidual(Green(word), Green(p), Green(a), Green(b), Green(c), 0x3f)
    && MedResidual(Blue(word), Blue(p), Blue(a), Blue(b), Blue(c), 0x1f)
  }

  lemma ChannelRange(p: pixel)
    ensures Red(p) <= 0x1f && Green(p) <= 0x3f && Blue(p) <= 0x1f
  {
  }

  /** Where the channels of a pixel are. */
  lemma ChannelsAre(p: pixel)
    ensures Red(p) as pixel == RedOf(p) && Green(p) as pixel == GreenOf(p) && Blue(p) as pixel == BlueOf(p)
  {
  }

  lemma SubMaskedStays(x: u8, p: u8, mask: u8)
    ensures SubMasked(x, p, mask) & mask == SubMasked(x, p, mask)
  {
  }

  lemma MedOfPack(x: pixel, a: pixel, b: pixel, c: pixel, r: u8, g: u8, l: u8)
    requires r & 0x1f == r && g & 0x3f == g && l & 0x1f == l
    requires MedResidual(r, Red(x), Red(a), Red(b), Red(c), 0x1f)
    requires MedResidual(g, Green(x), Green(a), Green(b), Green(c), 0x3f)
    requires MedResidual(l, Blue(x), Blue(a), Blue(b), Blue(c), 0x1f)
    ensures MedChannels(Pack(r, g, l), x, a, b, c)
  {
    RedOfPack(r, g, l);
    GreenOfPack(r, g, l);
    BlueOfPack(r, g, l);
  }

  /** One channel: its residual fits the mask, and what it lacks to x is the median. */
  lemma MedOfChannel(x: u8, a: u8, b: u8, c: u8, mask: u8) returns (r: u8)
    requires (mask == 0x1f || mask == 0x3f) && a <= mask && b <= mask
    ensures r == SubMasked(x, Med(a, b, c), mask) && r & mask == r && MedResidual(r, x, a, b, c, mask)
  {
    r := SubMasked(x, Med(a, b, c), mask);
    SubMaskedStays(x, Med(a, b, c), mask);
    MedChannel(x, a, b, c, mask);
  }

  lemma MedRule(x: pixel, a: pixel, b: pixel, c: pixel)
    ensures MedChannels(MED_PIXELS.residual(x, a, b, c), x, a, b, c)
    ensures MED_PIXELS.stride == 1 && MED_PIXELS.zero == 0
  {
    ChannelResidual(SubMasked, AddMasked, Med, x, a, b, c);
    ChannelRange(a);
    ChannelRange(b);
    var r := MedOfChannel(Red(x), Red(a), Red(b), Red(c), 0x1f);
    var g := MedOfChannel(Green(x), Green(a), Green(b), Green(c), 0x3f);
    var l := MedOfChannel(Blue(x), Blue(a), Blue(b), Blue(c), 0x1f);
    MedOfPack(x, a, b, c, r, g, l);
  }

  /** Channels minus the median prediction from the pixels to the left and above, each within its own bits. */
  lemma MedWrites(f: Frame, w: nat, i: nat)
    requires w > 0 && i < |f|
    ensures MedChannels(WordAt(Forward(MedT, f, w), i), f[i], LeftOf(f, w, 1, i, 0), AboveOf(f, w, i, 0),
                        AboveLeftOf(f, w, 1, i, 0))
  {
    var left, above, aboveLeft := LeftOf(f, w, 1, i, 0), AboveOf(f, w, i, 0), AboveLeftOf(f, w, 1, i, 0);
    MedRule(f[i], left, above, aboveLeft);
    WordWritten(MED_PIXELS, f, w, i, left, above, aboveLeft);
  }

  // ---------------------------------------------------------------- the shuffle, and frames without width

  /** All low bytes, then all high bytes. */
  lemma ShuffleWrites(f: Frame, w: nat, j: nat)
    requires w > 0 && j < 2 * |f|
    ensures Forward(ShuffleT, f, w)[j] == if j < |f| then ByteOf(f, 2 * j) else ByteOf(f, 2 * (j - |f|) + 1)
  {
    if j < |f| {
      MemoryIs(f, 2 * j);
    } else {
      MemoryIs(f, 2 * (j - |f|) + 1);
    }
  }
}
