/**
 * The reversible predictors of the codec bench.
 *
 * Eight of them replace every element of the image by its difference to a prediction made from the
 * element to the left, the one above and the one above left. A `Rule` holds what distinguishes them;
 * the ninth only separates low and high bytes. Pixel rules work on 16-bit pixels, byte rules on the
 * bytes of the frame with a stride of two.
 */
module Predictors {
  import opened Pixels

  // ---------------------------------------------------------------- rules

  /** residual(x, left, up, upLeft) and restore(residual, left, up, upLeft); zero stands for a missing neighbour. */
  datatype Rule<!E> = Rule(stride: nat, zero: E, residual: (E, E, E, E) -> E, restore: (E, E, E, E) -> E)

  ghost predicate Reversible<E(!new)>(k: Rule<E>) {
    && k.stride > 0
    && (forall x, a, b, c :: k.restore(k.residual(x, a, b, c), a, b, c) == x)
    && (forall r, a, b, c :: k.residual(k.restore(r, a, b, c), a, b, c) == r)
  }

  function Left<E>(k: Rule<E>, x: seq<E>, i: nat, col: nat): E
    requires k.stride > 0 && col <= i <= |x|
  {
    if col >= k.stride then x[i - k.stride] else k.zero
  }

  function Up<E>(k: Rule<E>, x: seq<E>, row: nat, i: nat, col: nat): E
    requires row > 0 && col <= i <= |x|
  {
    if i - col >= row then x[i - row] else k.zero
  }

  function UpLeft<E>(k: Rule<E>, x: seq<E>, row: nat, i: nat, col: nat): E
    requires k.stride > 0 && row > 0 && col <= i <= |x|
  {
    if i - col >= row && col >= k.stride then x[i - row - k.stride] else k.zero
  }

  function Column(i: nat, row: nat): (col: nat)
    requires row > 0
    ensures col <= i && col < row
  {
    i % row
  }

  /** The residual of `value` at index i, given the image before i. */
  function ResidualOf<E>(k: Rule<E>, row: nat, before: seq<E>, i: nat, value: E): E
    requires k.stride > 0 && row > 0 && i <= |before|
  {
    var col := Column(i, row);
    k.residual(value, Left(k, before, i, col), Up(k, before, row, i, col), UpLeft(k, before, row, i, col))
  }

  function RestoredFrom<E>(k: Rule<E>, row: nat, before: seq<E>, i: nat, residual: E): E
    requires k.stride > 0 && row > 0 && i <= |before|
  {
    var col := Column(i, row);
    k.restore(residual, Left(k, before, i, col), Up(k, before, row, i, col), UpLeft(k, before, row, i, col))
  }

  /** Forward: every element against the neighbours in the original image. */
  function Residuals<E>(k: Rule<E>, row: nat, x: seq<E>): (r: seq<E>)
    requires k.stride > 0 && row > 0
    ensures |r| == |x|
  {
    seq(|x|, i requires 0 <= i < |x| => ResidualOf(k, row, x, i, x[i]))
  }

  /** Inverse: the first n elements, each from the residual and the elements already rebuilt. */
  function Restored<E>(k: Rule<E>, row: nat, r: seq<E>, n: nat): (x: seq<E>)
    requires k.stride > 0 && row > 0 && n <= |r|
    ensures |x| == n
  {
    if n == 0 then [] else
    var before := Restored(k, row, r, n - 1);
    before + [RestoredFrom(k, row, before, n - 1, r[n - 1])]
  }

  /** Only what comes before an element influences its prediction. */
  lemma OnlyEarlierMatter<E>(k: Rule<E>, row: nat, x: seq<E>, y: seq<E>, i: nat, v: E)
    requires k.stride > 0 && row > 0 && i <= |x| && i <= |y| && x[..i] == y[..i]
    ensures ResidualOf(k, row, x, i, v) == ResidualOf(k, row, y, i, v)
    ensures RestoredFrom(k, row, x, i, v) == RestoredFrom(k, row, y, i, v)
  {
    assert forall j :: 0 <= j < i ==> x[j] == x[..i][j] == y[j];
  }

  /** inv(fwd(x)) == x, for every image and row length. */
  lemma {:induction false} RestoreResiduals<E(!new)>(k: Rule<E>, row: nat, x: seq<E>, n: nat)
    requires Reversible(k) && row > 0 && n <= |x|
    ensures Restored(k, row, Residuals(k, row, x), n) == x[..n]
  {
    if n > 0 {
      RestoreResiduals(k, row, x, n - 1);
      OnlyEarlierMatter(k, row, x, x[..n - 1], n - 1, Residuals(k, row, x)[n - 1]);
      assert x[..n] == x[..n - 1] + [x[n - 1]];
    }
  }

  lemma {:induction false} RestoredPrefix<E>(k: Rule<E>, row: nat, r: seq<E>, m: nat, n: nat)
    requires k.stride > 0 && row > 0 && m <= n <= |r|
    ensures Restored(k, row, r, n)[..m] == Restored(k, row, r, m)
  {
    if m < n {
      RestoredPrefix(k, row, r, m, n - 1);
      assert Restored(k, row, r, n)[..m] == Restored(k, row, r, n - 1)[..m];
    }
  }

  /** fwd(inv(r)) == r: every residual image is the residual image of something. */
  lemma ResidualsOfRestored<E(!new)>(k: Rule<E>, row: nat, r: seq<E>)
    requires Reversible(k) && row > 0
    ensures Residuals(k, row, Restored(k, row, r, |r|)) == r
  {
    var x := Restored(k, row, r, |r|);
    forall i | 0 <= i < |r|
      ensures ResidualOf(k, row, x, i, x[i]) == r[i]
    {
      var before := Restored(k, row, r, i);
      RestoredPrefix(k, row, r, i, |r|);
      RestoredPrefix(k, row, r, i + 1, |r|);
      assert x[i] == x[..i + 1][i] == RestoredFrom(k, row, before, i, r[i]);
      OnlyEarlierMatter(k, row, x, before, i, x[i]);
    }
  }

  // ---------------------------------------------------------------- channels of a pixel

  function Red(p: pixel): u8 { ((p >> 11) & 0x1f) as u8 }

  function Green(p: pixel): u8 { ((p >> 5) & 0x3f) as u8 }

  function Blue(p: pixel): u8 { (p & 0x1f) as u8 }

  function Pack(r: u8, g: u8, b: u8): pixel {
    (((r & 0x1f) as pixel) << 11) | (((g & 0x3f) as pixel) << 5) | ((b & 0x1f) as pixel)
  }

  lemma PackUnpack(p: pixel)
    ensures Pack(Red(p), Green(p), Blue(p)) == p
  {
  }

  lemma RedOfPack(r: u8, g: u8, b: u8)
    ensures Red(Pack(r, g, b)) == r & 0x1f
  {
  }

  lemma GreenOfPack(r: u8, g: u8, b: u8)
    ensures Green(Pack(r, g, b)) == g & 0x3f
  {
  }

  lemma BlueOfPack(r: u8, g: u8, b: u8)
    ensures Blue(Pack(r, g, b)) == b & 0x1f
  {
  }

  // ---------------------------------------------------------------- predictions

  function Distance(p: int, v: int): int {
    if p > v then p - v else v - p
  }

  /** The neighbour closest to left + up - upLeft; ties go to the left, then up. */
  function Paeth(a: int, b: int, c: int): (v: int)
    ensures v in {a, b, c}
  {
    var p := a + b - c;
    var pa, pb, pc := Distance(p, a), Distance(p, b), Distance(p, c);
    if pa <= pb && pa <= pc then a else if pb <= pc then b else c
  }

  function PaethByte(a: u8, b: u8, c: u8): u8 {
    Paeth(a as int, b as int, c as int) as u8
  }

  function PaethPixel(a: pixel, b: pixel, c: pixel): pixel {
    Paeth(a as int, b as int, c as int) as pixel
  }

  /** The Paeth filter of the PNG specification, section 9.4: the nearest neighbour, in that order of preference. */
  lemma PaethIsNearest(a: int, b: int, c: int)
    ensures var p, v := a + b - c, Paeth(a, b, c);
            && Distance(p, v) <= Distance(p, a) && Distance(p, v) <= Distance(p, b) && Distance(p, v) <= Distance(p, c)
            && (Distance(p, v) == Distance(p, a) ==> v == a)
            && (Distance(p, v) == Distance(p, b) ==> v == a || v == b)
  {
  }

  /** The median edge detector of JPEG-LS, on one channel. */
  function MedPredict(a: int, b: int, c: int): int {
    var lo := if a < b then a else b;
    var hi := if a > b then a else b;
    if c >= hi then lo else if c <= lo then hi else a + b - c
  }

  predicate IsMedian(m: int, a: int, b: int, g: int) {
    || (m == a && (b <= a <= g || g <= a <= b))
    || (m == b && (a <= b <= g || g <= b <= a))
    || (m == g && (a <= g <= b || b <= g <= a))
  }

  /** It is the median of left, up, and left + up - upLeft. */
  lemma MedIsMedian(a: int, b: int, c: int)
    ensures IsMedian(MedPredict(a, b, c), a, b, a + b - c)
  {
  }

  /** Only its low bits matter: the channel residual is masked. */
  function Med(a: u8, b: u8, c: u8): u8 {
    (MedPredict(a as int, b as int, c as int) % 0x100) as u8
  }

  // ---------------------------------------------------------------- the eight neighbour rules

  /** The difference of an element to a prediction, for any subtraction and addition of elements. */
  function DifferenceRule<E>(stride: nat, zero: E, sub: (E, E) -> E, add: (E, E) -> E, predict: (E, E, E) -> E)
    : Rule<E>
  {
    Rule(stride, zero, (x, a, b, c) => sub(x, predict(a, b, c)), (r, a, b, c) => add(r, predict(a, b, c)))
  }

  /** One channel function applied to the three channels; its last argument is the channel's mask. */
  function PerChannel(
    f: (u8, u8, u8) -> u8, predict: (u8, u8, u8) -> u8, x: pixel, a: pixel, b: pixel, c: pixel): pixel
  {
    Pack(f(Red(x), predict(Red(a), Red(b), Red(c)), 0x1f),
         f(Green(x), predict(Green(a), Green(b), Green(c)), 0x3f),
         f(Blue(x), predict(Blue(a), Blue(b), Blue(c)), 0x1f))
  }

  /** The same with the three channels predicted and subtracted separately. */
  function ChannelRule(sub: (u8, u8, u8) -> u8, add: (u8, u8, u8) -> u8, predict: (u8, u8, u8) -> u8): Rule<pixel> {
    Rule(1, 0,
         (x: pixel, a: pixel, b: pixel, c: pixel) => PerChannel(sub, predict, x, a, b, c),
         (r: pixel, a: pixel, b: pixel, c: pixel) => PerChannel(add, predict, r, a, b, c))
  }

  function LeftOnly<E>(a: E, b: E, c: E): E { a }

  function SubByte(x: u8, p: u8): u8 { x - p }
  function AddByte(r: u8, p: u8): u8 { r + p }
  function SubPixel(x: pixel, p: pixel): pixel { x - p }
  function AddPixel(r: pixel, p: pixel): pixel { r + p }
  function SubMasked(x: u8, p: u8, mask: u8): u8 { (x - p) & mask }
  function AddMasked(r: u8, p: u8, mask: u8): u8 { (r + p) & mask }
  function XorMasked(x: u8, p: u8, mask: u8): u8 { (x ^ p) & mask }

  const SUB_BYTES: Rule<u8> := DifferenceRule(2, 0, SubByte, AddByte, LeftOnly)
  const PAETH_BYTES: Rule<u8> := DifferenceRule(2, 0, SubByte, AddByte, PaethByte)
  const SUB_PIXELS: Rule<pixel> := DifferenceRule(1, 0, SubPixel, AddPixel, LeftOnly)
  const XOR_PIXELS: Rule<pixel> := DifferenceRule(1, 0, Xor, Xor, LeftOnly)
  const PAETH_PIXELS: Rule<pixel> := DifferenceRule(1, 0, SubPixel, AddPixel, PaethPixel)
  const MED_PIXELS: Rule<pixel> := ChannelRule(SubMasked, AddMasked, Med)
  const SUB_CHANNELS: Rule<pixel> := ChannelRule(SubMasked, AddMasked, LeftOnly)
  const XOR_CHANNELS: Rule<pixel> := ChannelRule(XorMasked, XorMasked, LeftOnly)

  // ---------------------------------------------------------------- they are reversible

  ghost predicate Inverse<E(!new)>(add: (E, E) -> E, sub: (E, E) -> E) {
    forall x, p :: add(sub(x, p), p) == x
  }

  lemma DifferenceReversible<E(!new)>(
    stride: nat, zero: E, sub: (E, E) -> E, add: (E, E) -> E, predict: (E, E, E) -> E)
    requires stride > 0 && Inverse(add, sub) && Inverse(sub, add)
    ensures Reversible(DifferenceRule(stride, zero, sub, add, predict))
  {
  }

  lemma SubAddByte(x: u8, p: u8)
    ensures AddByte(SubByte(x, p), p) == x
  {
    calc {
      AddByte(SubByte(x, p), p);
      AddByte(x - p, p);
      (x - p) + p;
      x;
    }
  }

  lemma AddSubByte(x: u8, p: u8)
    ensures SubByte(AddByte(x, p), p) == x
  {
    calc {
      SubByte(AddByte(x, p), p);
      SubByte(x + p, p);
      (x + p) - p;
      x;
    }
  }

  lemma SubAddPixel(x: pixel, p: pixel)
    ensures AddPixel(SubPixel(x, p), p) == x
  {
    calc {
      AddPixel(SubPixel(x, p), p);
      AddPixel(x - p, p);
      (x - p) + p;
      x;
    }
  }

  lemma AddSubPixel(x: pixel, p: pixel)
    ensures SubPixel(AddPixel(x, p), p) == x
  {
    calc {
      SubPixel(AddPixel(x, p), p);
      SubPixel(x + p, p);
      (x + p) - p;
      x;
    }
  }

  lemma BytesAddBack()
    ensures Inverse(AddByte, SubByte)
  {
    forall x: u8, p: u8
      ensures AddByte(SubByte(x, p), p) == x
    {
      SubAddByte(x, p);
    }
  }

  lemma BytesSubBack()
    ensures Inverse(SubByte, AddByte)
  {
    forall x: u8, p: u8
      ensures SubByte(AddByte(x, p), p) == x
    {
      AddSubByte(x, p);
    }
  }

  lemma PixelsAddBack()
    ensures Inverse(AddPixel, SubPixel)
  {
    forall x: pixel, p: pixel
      ensures AddPixel(SubPixel(x, p), p) == x
    {
      SubAddPixel(x, p);
    }
  }

  lemma PixelsSubBack()
    ensures Inverse(SubPixel, AddPixel)
  {
    forall x: pixel, p: pixel
      ensures SubPixel(AddPixel(x, p), p) == x
    {
      AddSubPixel(x, p);
    }
  }

  lemma PixelXors()
    ensures Inverse(Xor, Xor)
  {
    forall x: pixel, p: pixel
      ensures Xor(Xor(x, p), p) == x
    {
      XorTwice(x, p);
    }
  }

  predicate Fits(x: u8, mask: u8) {
    (mask == 0x1f || mask == 0x3f) && x & mask == x
  }

  /** On channel values that fit the mask `add` undoes `sub`, whatever the prediction, and `sub` stays in it. */
  ghost predicate InverseMasked(add: (u8, u8, u8) -> u8, sub: (u8, u8, u8) -> u8) {
    forall x, p, mask :: Fits(x, mask) ==> add(sub(x, p, mask), p, mask) == x && Fits(sub(x, p, mask), mask)
  }

  lemma ChannelsFit(p: pixel)
    ensures Fits(Red(p), 0x1f) && Fits(Green(p), 0x3f) && Fits(Blue(p), 0x1f)
  {
  }

  /** One channel survives: what `sub` makes fits, so packing keeps it, and `add` undoes it. */
  lemma ChannelUndone(add: (u8, u8, u8) -> u8, sub: (u8, u8, u8) -> u8, x: u8, p: u8, mask: u8)
    requires InverseMasked(add, sub) && Fits(x, mask)
    ensures sub(x, p, mask) & mask == sub(x, p, mask) && add(sub(x, p, mask), p, mask) == x
  {
    assert Fits(sub(x, p, mask), mask);
  }

  lemma PerChannelUndoes(
    add: (u8, u8, u8) -> u8, sub: (u8, u8, u8) -> u8, predict: (u8, u8, u8) -> u8, x: pixel, a: pixel, b: pixel,
    c: pixel)
    requires InverseMasked(add, sub)
    ensures PerChannel(add, predict, PerChannel(sub, predict, x, a, b, c), a, b, c) == x
  {
    ChannelsFit(x);
    var pr, pg := predict(Red(a), Red(b), Red(c)), predict(Green(a), Green(b), Green(c));
    var pb := predict(Blue(a), Blue(b), Blue(c));
    ChannelUndone(add, sub, Red(x), pr, 0x1f);
    ChannelUndone(add, sub, Green(x), pg, 0x3f);
    ChannelUndone(add, sub, Blue(x), pb, 0x1f);
    var r, g, l := sub(Red(x), pr, 0x1f), sub(Green(x), pg, 0x3f), sub(Blue(x), pb, 0x1f);
    RedOfPack(r, g, l);
    GreenOfPack(r, g, l);
    BlueOfPack(r, g, l);
    PackUnpack(x);
  }

  lemma ChannelReversible(sub: (u8, u8, u8) -> u8, add: (u8, u8, u8) -> u8, predict: (u8, u8, u8) -> u8)
    requires InverseMasked(add, sub) && InverseMasked(sub, add)
    ensures Reversible(ChannelRule(sub, add, predict))
  {
    var k := ChannelRule(sub, add, predict);
    forall x: pixel, a: pixel, b: pixel, c: pixel
      ensures k.restore(k.residual(x, a, b, c), a, b, c) == x
      ensures k.residual(k.restore(x, a, b, c), a, b, c) == x
    {
      PerChannelUndoes(add, sub, predict, x, a, b, c);
      PerChannelUndoes(sub, add, predict, x, a, b, c);
    }
  }

  lemma SubThenAdd(x: u8, p: u8, mask: u8)
    requires Fits(x, mask)
    ensures AddMasked(SubMasked(x, p, mask), p, mask) == x
  {
  }

  lemma AddThenSub(x: u8, p: u8, mask: u8)
    requires Fits(x, mask)
    ensures SubMasked(AddMasked(x, p, mask), p, mask) == x
  {
  }

  lemma XorThenXor(x: u8, p: u8, mask: u8)
    requires Fits(x, mask)
    ensures XorMasked(XorMasked(x, p, mask), p, mask) == x
  {
  }

  lemma MaskedFits(x: u8, mask: u8)
    requires mask == 0x1f || mask == 0x3f
    ensures Fits(x & mask, mask)
  {
  }

  lemma SubUndone()
    ensures InverseMasked(AddMasked, SubMasked)
  {
    forall x: u8, p: u8, mask: u8 | Fits(x, mask)
      ensures AddMasked(SubMasked(x, p, mask), p, mask) == x && Fits(SubMasked(x, p, mask), mask)
    {
      SubThenAdd(x, p, mask);
      MaskedFits(x - p, mask);
    }
  }

  lemma AddUndone()
    ensures InverseMasked(SubMasked, AddMasked)
  {
    forall x: u8, p: u8, mask: u8 | Fits(x, mask)
      ensures SubMasked(AddMasked(x, p, mask), p, mask) == x && Fits(AddMasked(x, p, mask), mask)
    {
      AddThenSub(x, p, mask);
      MaskedFits(x + p, mask);
    }
  }

  lemma XorUndone()
    ensures InverseMasked(XorMasked, XorMasked)
  {
    forall x: u8, p: u8, mask: u8 | Fits(x, mask)
      ensures XorMasked(XorMasked(x, p, mask), p, mask) == x && Fits(XorMasked(x, p, mask), mask)
    {
      XorThenXor(x, p, mask);
      MaskedFits(x ^ p, mask);
    }
  }

  /** All eight rules are reversible. */
  lemma RulesReversible()
    ensures Reversible(SUB_BYTES) && Reversible(PAETH_BYTES)
    ensures Reversible(SUB_PIXELS) && Reversible(XOR_PIXELS) && Reversible(PAETH_PIXELS)
    ensures Reversible(MED_PIXELS) && Reversible(SUB_CHANNELS) && Reversible(XOR_CHANNELS)
  {
    BytesAddBack();
    BytesSubBack();
    PixelsAddBack();
    PixelsSubBack();
    PixelXors();
    DifferenceReversible(2, 0, SubByte, AddByte, LeftOnly);
    DifferenceReversible(2, 0, SubByte, AddByte, PaethByte);
    DifferenceReversible(1, 0, SubPixel, AddPixel, LeftOnly);
    DifferenceReversible(1, 0, Xor, Xor, LeftOnly);
    DifferenceReversible(1, 0, SubPixel, AddPixel, PaethPixel);
    SubUndone();
    AddUndone();
    XorUndone();
    ChannelReversible(SubMasked, AddMasked, Med);
    ChannelReversible(SubMasked, AddMasked, LeftOnly);
    ChannelReversible(XorMasked, XorMasked, LeftOnly);
  }
}
