/** Quantisation of RGB565 frames: masking in place, and the packed 12-bit and 8-bit layouts. */
module Quantise {
  import opened Pixels
  import opened Predictors

  /** Two channel values at most d apart. */
  predicate Within(x: u8, y: u8, d: u8) {
    (if x > y then x - y else y - x) <= d
  }

  // ---------------------------------------------------------------- masking

  // The top 4 of 5, 5 of 6 and 4 of 6 bits of a channel.
  const TOP_4_OF_5: u8 := 0x1e
  const TOP_5_OF_6: u8 := 0x3e
  const TOP_4_OF_6: u8 := 0x3c

  function MildPixel(p: pixel): pixel {
    Pack(Red(p) & TOP_4_OF_5, Green(p) & TOP_5_OF_6, Blue(p) & TOP_4_OF_5)
  }

  function ModeratePixel(p: pixel): pixel {
    Pack(Red(p) & TOP_4_OF_5, Green(p) & TOP_4_OF_6, Blue(p) & TOP_4_OF_5)
  }

  function MildFrame(f: Frame): (q: Frame)
    ensures |q| == |f|
  {
    seq(|f|, i requires 0 <= i < |f| => MildPixel(f[i]))
  }

  function ModerateFrame(f: Frame): (q: Frame)
    ensures |q| == |f|
  {
    seq(|f|, i requires 0 <= i < |f| => ModeratePixel(f[i]))
  }

  /** quant_mild_fwd. */
  method QuantiseMild(src: array<pixel>, dst: array<pixel>)
    requires src.Length == dst.Length && src != dst
    modifies dst
    ensures dst[..] == MildFrame(src[..])
  {
    for i := 0 to src.Length
      invariant forall j :: 0 <= j < i ==> dst[j] == MildPixel(src[j])
    {
      var r, g, b := Red(src[i]), Green(src[i]), Blue(src[i]);
      dst[i] := Pack(r & TOP_4_OF_5, g & TOP_5_OF_6, b & TOP_4_OF_5);
    }
  }

  /** quant_moderate_fwd. */
  method QuantiseModerate(src: array<pixel>, dst: array<pixel>)
    requires src.Length == dst.Length && src != dst
    modifies dst
    ensures dst[..] == ModerateFrame(src[..])
  {
    for i := 0 to src.Length
      invariant forall j :: 0 <= j < i ==> dst[j] == ModeratePixel(src[j])
    {
      var r, g, b := Red(src[i]), Green(src[i]), Blue(src[i]);
      dst[i] := Pack(r & TOP_4_OF_5, g & TOP_4_OF_6, b & TOP_4_OF_5);
    }
  }

  /** Every channel of q is within the given distance of p's. */
  predicate Close(p: pixel, q: pixel, dr: u8, dg: u8, db: u8) {
    Within(Red(p), Red(q), dr) && Within(Green(p), Green(q), dg) && Within(Blue(p), Blue(q), db)
  }

  lemma DropOneOf5(x: u8)
    requires x <= 0x1f
    ensures Within(x, (x & TOP_4_OF_5) & 0x1f, 1)
  {
  }

  lemma DropOneOf6(x: u8)
    requires x <= 0x3f
    ensures Within(x, (x & TOP_5_OF_6) & 0x3f, 1)
  {
  }

  lemma RedRange(p: pixel)
    ensures Red(p) <= 0x1f
  {
  }

  lemma GreenRange(p: pixel)
    ensures Green(p) <= 0x3f
  {
  }

  lemma BlueRange(p: pixel)
    ensures Blue(p) <= 0x1f
  {
  }

  lemma MildRed(p: pixel)
    ensures Within(Red(p), Red(MildPixel(p)), 1)
  {
    RedRange(p);
    DropOneOf5(Red(p));
    RedOfPack(Red(p) & TOP_4_OF_5, Green(p) & TOP_5_OF_6, Blue(p) & TOP_4_OF_5);
  }

  lemma MildGreen(p: pixel)
    ensures Within(Green(p), Green(MildPixel(p)), 1)
  {
    GreenRange(p);
    DropOneOf6(Green(p));
    GreenOfPack(Red(p) & TOP_4_OF_5, Green(p) & TOP_5_OF_6, Blue(p) & TOP_4_OF_5);
  }

  lemma MildBlue(p: pixel)
    ensures Within(Blue(p), Blue(MildPixel(p)), 1)
  {
    BlueRange(p);
    DropOneOf5(Blue(p));
    BlueOfPack(Red(p) & TOP_4_OF_5, Green(p) & TOP_5_OF_6, Blue(p) & TOP_4_OF_5);
  }

  /** Mild quantisation moves no channel by more than one. */
  lemma MildIsClose(p: pixel)
    ensures Close(p, MildPixel(p), 1, 1, 1)
  {
    MildRed(p);
    MildGreen(p);
    MildBlue(p);
  }

  // ---------------------------------------------------------------- RGB444, two pixels in three bytes

  type Packed = seq<u8>

  function Join444(r: u8, g: u8, b: u8): bv16 {
    ((r as bv16) << 8) | ((g as bv16) << 4) | (b as bv16)
  }

  function HighNibble(v: bv16): u8 { ((v >> 8) & 0xf) as u8 }

  function MidNibble(v: bv16): u8 { ((v >> 4) & 0xf) as u8 }

  function LowNibble(v: bv16): u8 { (v & 0xf) as u8 }

  function Shrink5To4(c: u8): u8 { (c & TOP_4_OF_5) >> 1 }

  function Shrink6To4(c: u8): u8 { (c & TOP_4_OF_6) >> 2 }

  function Grow4To5(v: u8): u8 { (v << 1) | (v >> 3) }

  function Grow4To6(v: u8): u8 { (v << 2) | (v >> 2) }

  function To444(p: pixel): bv16 {
    Join444(Shrink5To4(Red(p)), Shrink6To4(Green(p)), Shrink5To4(Blue(p)))
  }

  function From444(v: bv16): pixel {
    Pack(Grow4To5(HighNibble(v)), Grow4To6(MidNibble(v)), Grow4To5(LowNibble(v)))
  }

  // The three bytes of a pair of 12-bit values, and the two values of three bytes.
  function First444(v: bv16): u8 { ((v >> 4) & 0xff) as u8 }

  function Middle444(v: bv16, w: bv16): u8 { (((v & 0xf) << 4) | ((w >> 8) & 0xf)) as u8 }

  function Last444(w: bv16): u8 { (w & 0xff) as u8 }

  function Upper444(b0: u8, b1: u8): bv16 { ((b0 as bv16) << 4) | ((b1 >> 4) as bv16) }

  function Lower444(b1: u8, b2: u8): bv16 { (((b1 & 0xf) as bv16) << 8) | (b2 as bv16) }

  function Size444(n: nat): nat {
    3 * ((n + 1) / 2)
  }

  /** The 12-bit value of pixel i; an odd frame is completed with a zero. */
  function Value444(f: Frame, i: nat): bv16 {
    if i < |f| then To444(f[i]) else 0
  }

  function Group444(v: bv16, w: bv16): (u8, u8, u8) {
    (First444(v), Middle444(v, w), Last444(w))
  }

  /** The first n triples of a stream, one after the other. */
  function Triples<T>(part: nat -> (T, T, T), n: nat): (r: seq<T>)
    ensures |r| == 3 * n
  {
    if n == 0 then [] else Triples(part, n - 1) + [part(n - 1).0, part(n - 1).1, part(n - 1).2]
  }

  function GroupsOf(f: Frame): nat -> (u8, u8, u8) {
    (g: nat) => Group444(Value444(f, 2 * g), Value444(f, 2 * g + 1))
  }

  function Pack444(f: Frame): (p: Packed)
    ensures |p| == Size444(|f|)
  {
    Triples(GroupsOf(f), (|f| + 1) / 2)
  }

  /** The 12-bit value stored for pixel i. */
  function Stored444(p: Packed, i: nat): bv16
    requires 3 * (i / 2) + 2 < |p|
  {
    var k := 3 * (i / 2);
    if i % 2 == 0 then Upper444(p[k], p[k + 1]) else Lower444(p[k + 1], p[k + 2])
  }

  function Unpack444(p: Packed, n: nat): (f: Frame)
    requires |p| == Size444(n)
    ensures |f| == n
  {
    seq(n, i requires 0 <= i < n => From444(Stored444(p, i)))
  }

  /** The unused twelve bits of an odd frame are zero. */
  predicate WellFormed444(p: Packed, n: nat) {
    |p| == Size444(n) && (n % 2 == 1 ==> p[|p| - 1] == 0 && p[|p| - 2] & 0xf == 0)
  }

  /** Appends the group of v and w, the values of pixels 2 * g and 2 * g + 1 of f. */
  method WriteGroup444(dst: array<u8>, at: nat, v: bv16, w: bv16, ghost f: Frame, ghost g: nat)
    requires at == 3 * g && at + 3 <= dst.Length
    requires v == Value444(f, 2 * g) && w == Value444(f, 2 * g + 1)
    requires dst[..at] == Triples(GroupsOf(f), g)
    modifies dst
    ensures dst[..at + 3] == Triples(GroupsOf(f), g + 1)
  {
    dst[at] := First444(v);
    dst[at + 1] := Middle444(v, w);
    dst[at + 2] := Last444(w);
  }

  method PackPairs(src: array<pixel>, dst: array<u8>, pairs: nat)
    requires 2 * pairs <= src.Length && 3 * pairs <= dst.Length
    modifies dst
    ensures dst[..3 * pairs] == Triples(GroupsOf(src[..]), pairs)
  {
    ghost var f := src[..];
    var outOff := 0;
    for i := 0 to pairs
      invariant outOff == 3 * i && dst[..outOff] == Triples(GroupsOf(f), i)
    {
      WriteGroup444(dst, outOff, To444(src[2 * i]), To444(src[2 * i + 1]), f, i);
      outOff := outOff + 3;
    }
  }

  /** quant_rgb444_pack. */
  method PackRgb444(src: array<pixel>, dst: array<u8>) returns (outOff: nat)
    requires dst.Length == Size444(src.Length)
    modifies dst
    ensures outOff == Size444(src.Length) && dst[..] == Pack444(src[..])
  {
    var n := src.Length;
    ghost var f := src[..];
    PackPairs(src, dst, n / 2);
    outOff := 3 * (n / 2);
    if n % 2 == 1 {
      WriteGroup444(dst, outOff, To444(src[n - 1]), 0, f, n / 2);
      outOff := outOff + 3;
    }
    assert dst[..] == dst[..outOff];
  }

  /** quant_rgb444_unpack. */
  method UnpackRgb444(src: array<u8>, dst: array<pixel>)
    requires src.Length == Size444(dst.Length)
    modifies dst
    ensures dst[..] == Unpack444(src[..], dst.Length)
  {
    var n := dst.Length;
    var pairs := n / 2;
    var inOff := 0;
    for i := 0 to pairs
      invariant inOff == 3 * i && forall j :: 0 <= j < 2 * i ==> dst[j] == From444(Stored444(src[..], j))
    {
      dst[2 * i] := From444(Upper444(src[inOff], src[inOff + 1]));
      dst[2 * i + 1] := From444(Lower444(src[inOff + 1], src[inOff + 2]));
      inOff := inOff + 3;
    }
    if n % 2 == 1 {
      dst[n - 1] := From444(Upper444(src[inOff], src[inOff + 1]));
    }
  }

  // Bit facts, one claim each.

  lemma JoinNibbles(v: bv16)
    requires v <= 0xfff
    ensures Join444(HighNibble(v), MidNibble(v), LowNibble(v)) == v
  {
  }

  lemma HighOfJoin(r: u8, g: u8, b: u8)
    requires r <= 0xf && g <= 0xf && b <= 0xf
    ensures HighNibble(Join444(r, g, b)) == r
  {
  }

  lemma MidOfJoin(r: u8, g: u8, b: u8)
    requires g <= 0xf && b <= 0xf
    ensures MidNibble(Join444(r, g, b)) == g
  {
  }

  lemma LowOfJoin(r: u8, g: u8, b: u8)
    requires b <= 0xf
    ensures LowNibble(Join444(r, g, b)) == b
  {
  }

  lemma JoinFits(r: u8, g: u8, b: u8)
    requires r <= 0xf && g <= 0xf && b <= 0xf
    ensures Join444(r, g, b) <= 0xfff
  {
  }

  lemma NibblesFit(v: bv16)
    ensures HighNibble(v) <= 0xf && MidNibble(v) <= 0xf && LowNibble(v) <= 0xf
  {
  }

  lemma ShrunkFits(c: u8)
    ensures Shrink5To4(c) <= 0xf && Shrink6To4(c) <= 0xf
  {
  }

  lemma ShrinkGrown5(v: u8)
    requires v <= 0xf
    ensures Shrink5To4(Grow4To5(v) & 0x1f) == v
  {
  }

  lemma ShrinkGrown6(v: u8)
    requires v <= 0xf
    ensures Shrink6To4(Grow4To6(v) & 0x3f) == v
  {
  }

  lemma GrowShrunk5(c: u8)
    requires c <= 0x1f
    ensures Within(c, Grow4To5(Shrink5To4(c)) & 0x1f, 1)
  {
  }

  lemma GrowShrunk6(c: u8)
    requires c <= 0x3f
    ensures Within(c, Grow4To6(Shrink6To4(c)) & 0x3f, 3)
  {
  }

  lemma To444Fits(p: pixel)
    ensures To444(p) <= 0xfff
  {
    ShrunkFits(Red(p));
    ShrunkFits(Green(p));
    ShrunkFits(Blue(p));
    JoinFits(Shrink5To4(Red(p)), Shrink6To4(Green(p)), Shrink5To4(Blue(p)));
  }

  lemma To444OfFrom444(v: bv16)
    requires v <= 0xfff
    ensures To444(From444(v)) == v
  {
    var r, g, b := HighNibble(v), MidNibble(v), LowNibble(v);
    NibblesFit(v);
    RedOfPack(Grow4To5(r), Grow4To6(g), Grow4To5(b));
    GreenOfPack(Grow4To5(r), Grow4To6(g), Grow4To5(b));
    BlueOfPack(Grow4To5(r), Grow4To6(g), Grow4To5(b));
    ShrinkGrown5(r);
    ShrinkGrown6(g);
    ShrinkGrown5(b);
    JoinNibbles(v);
  }

  /** A pixel comes back from twelve bits within 1, 3 and 1 per channel. */
  lemma Rgb444IsClose(p: pixel)
    ensures Close(p, From444(To444(p)), 1, 3, 1)
  {
    var r, g, b := Shrink5To4(Red(p)), Shrink6To4(Green(p)), Shrink5To4(Blue(p));
    RedRange(p);
    GreenRange(p);
    BlueRange(p);
    ShrunkFits(Red(p));
    ShrunkFits(Green(p));
    ShrunkFits(Blue(p));
    HighOfJoin(r, g, b);
    MidOfJoin(r, g, b);
    LowOfJoin(r, g, b);
    RedOfPack(Grow4To5(r), Grow4To6(g), Grow4To5(b));
    GreenOfPack(Grow4To5(r), Grow4To6(g), Grow4To5(b));
    BlueOfPack(Grow4To5(r), Grow4To6(g), Grow4To5(b));
    GrowShrunk5(Red(p));
    GrowShrunk6(Green(p));
    GrowShrunk5(Blue(p));
  }

  lemma StoredFits(b0: u8, b1: u8, b2: u8)
    ensures Upper444(b0, b1) <= 0xfff && Lower444(b1, b2) <= 0xfff
  {
  }

  lemma FirstOfStored(b0: u8, b1: u8)
    ensures First444(Upper444(b0, b1)) == b0
  {
  }

  lemma MiddleOfStored(b0: u8, b1: u8, b2: u8)
    ensures Middle444(Upper444(b0, b1), Lower444(b1, b2)) == b1
  {
  }

  lemma MiddleOfLast(b0: u8, b1: u8)
    requires b1 & 0xf == 0
    ensures Middle444(Upper444(b0, b1), 0) == b1
  {
  }

  lemma LastOfStored(b1: u8, b2: u8)
    ensures Last444(Lower444(b1, b2)) == b2
  {
  }

  lemma UpperOfPair(v: bv16, w: bv16)
    requires v <= 0xfff
    ensures Upper444(First444(v), Middle444(v, w)) == v
  {
  }

  lemma LowerOfPair(v: bv16, w: bv16)
    requires w <= 0xfff
    ensures Lower444(Middle444(v, w), Last444(w)) == w
  {
  }

  lemma MiddleAlone(v: bv16)
    ensures Middle444(v, 0) & 0xf == 0 && Last444(0) == 0
  {
  }

  /** The value repacked for pixel i of an unpacked buffer. */
  lemma RepackedValue(p: Packed, n: nat, i: nat)
    requires |p| == Size444(n) && i < n
    ensures Value444(Unpack444(p, n), i) == Stored444(p, i)
  {
    var k := 3 * (i / 2);
    StoredFits(p[k], p[k + 1], p[k + 2]);
    To444OfFrom444(Stored444(p, i));
  }

  lemma RepackedGroup(p: Packed, n: nat, g: nat)
    requires WellFormed444(p, n) && 2 * g < n
    ensures GroupsOf(Unpack444(p, n))(g) == (p[3 * g], p[3 * g + 1], p[3 * g + 2])
  {
    var k := 3 * g;
    var b0, b1, b2 := p[k], p[k + 1], p[k + 2];
    RepackedValue(p, n, 2 * g);
    FirstOfStored(b0, b1);
    if 2 * g + 1 < n {
      RepackedValue(p, n, 2 * g + 1);
      MiddleOfStored(b0, b1, b2);
      LastOfStored(b1, b2);
    } else {
      MiddleOfLast(b0, b1);
      MiddleAlone(0);
    }
  }

  lemma {:induction false} TriplesAre<T>(p: seq<T>, part: nat -> (T, T, T), n: nat)
    requires 3 * n <= |p| && forall g :: 0 <= g < n ==> part(g) == (p[3 * g], p[3 * g + 1], p[3 * g + 2])
    ensures Triples(part, n) == p[..3 * n]
  {
    if n > 0 {
      TriplesAre(p, part, n - 1);
    }
  }

  lemma {:induction false} TripleAt<T>(part: nat -> (T, T, T), n: nat, g: nat)
    requires g < n
    ensures var p := Triples(part, n);
            p[3 * g] == part(g).0 && p[3 * g + 1] == part(g).1 && p[3 * g + 2] == part(g).2
  {
    if g < n - 1 {
      TripleAt(part, n - 1, g);
    }
  }

  /** Packing is a retraction of unpacking: every well-formed buffer comes back, odd pixel counts included. */
  lemma RepackRgb444(p: Packed, n: nat)
    requires WellFormed444(p, n)
    ensures Pack444(Unpack444(p, n)) == p
  {
    var part := GroupsOf(Unpack444(p, n));
    forall g: nat | g < (n + 1) / 2
      ensures part(g) == (p[3 * g], p[3 * g + 1], p[3 * g + 2])
    {
      RepackedGroup(p, n, g);
    }
    TriplesAre(p, part, (n + 1) / 2);
    assert p[..|p|] == p;
  }

  lemma GroupBytes(f: Frame, g: nat)
    requires 2 * g < |f|
    ensures var p, v, w := Pack444(f), Value444(f, 2 * g), Value444(f, 2 * g + 1);
            p[3 * g] == First444(v) && p[3 * g + 1] == Middle444(v, w) && p[3 * g + 2] == Last444(w)
  {
    TripleAt(GroupsOf(f), (|f| + 1) / 2, g);
  }

  lemma StoredOfPacked(f: Frame, i: nat)
    requires i < |f|
    ensures Stored444(Pack444(f), i) == To444(f[i])
  {
    var g := i / 2;
    GroupBytes(f, g);
    To444Fits(f[i]);
    if i == 2 * g {
      UpperOfPair(To444(f[i]), Value444(f, i + 1));
    } else {
      LowerOfPair(Value444(f, i - 1), To444(f[i]));
    }
  }

  /** What packing produces is well formed, and unpacks to every pixel within 1, 3 and 1 per channel. */
  lemma PackedRgb444(f: Frame)
    ensures WellFormed444(Pack444(f), |f|)
    ensures var g := Unpack444(Pack444(f), |f|);
            forall i :: 0 <= i < |f| ==> Close(f[i], g[i], 1, 3, 1)
  {
    if |f| % 2 == 1 {
      GroupBytes(f, |f| / 2);
      MiddleAlone(Value444(f, |f| - 1));
    }
    forall i | 0 <= i < |f|
      ensures Close(f[i], Unpack444(Pack444(f), |f|)[i], 1, 3, 1)
    {
      StoredOfPacked(f, i);
      Rgb444IsClose(f[i]);
    }
  }

  // ---------------------------------------------------------------- RGB332, one byte a pixel

  function Join332(r: u8, g: u8, b: u8): u8 { (r << 5) | (g << 2) | b }

  function Red3(v: u8): u8 { (v >> 5) & 0x7 }

  function Green3(v: u8): u8 { (v >> 2) & 0x7 }

  function Blue2(v: u8): u8 { v & 0x3 }

  function Grow3To5(v: u8): u8 { (v << 2) | (v >> 1) }

  function Grow3To6(v: u8): u8 { (v << 3) | v }

  function Grow2To5(v: u8): u8 { (v << 3) | (v << 1) | (v >> 1) }

  function To332(p: pixel): u8 { Join332(Red(p) >> 2, Green(p) >> 3, Blue(p) >> 3) }

  function From332(v: u8): pixel { Pack(Grow3To5(Red3(v)), Grow3To6(Green3(v)), Grow2To5(Blue2(v))) }

  function Pack332(f: Frame): (p: Packed)
    ensures |p| == |f|
  {
    seq(|f|, i requires 0 <= i < |f| => To332(f[i]))
  }

  function Unpack332(p: Packed): (f: Frame)
    ensures |f| == |p|
  {
    seq(|p|, i requires 0 <= i < |p| => From332(p[i]))
  }

  /** quant_rgb332_pack. */
  method PackRgb332(src: array<pixel>, dst: array<u8>)
    requires dst.Length == src.Length
    modifies dst
    ensures dst[..] == Pack332(src[..])
  {
    for i := 0 to src.Length
      invariant forall j :: 0 <= j < i ==> dst[j] == To332(src[j])
    {
      var r, g, b := Red(src[i]), Green(src[i]), Blue(src[i]);
      dst[i] := Join332(r >> 2, g >> 3, b >> 3);
    }
  }

  /** quant_rgb332_unpack. */
  method UnpackRgb332(src: array<u8>, dst: array<pixel>)
    requires dst.Length == src.Length
    modifies dst
    ensures dst[..] == Unpack332(src[..])
  {
    for i := 0 to src.Length
      invariant forall j :: 0 <= j < i ==> dst[j] == From332(src[j])
    {
      var r3, g3, b2 := Red3(src[i]), Green3(src[i]), Blue2(src[i]);
      dst[i] := Pack(Grow3To5(r3), Grow3To6(g3), Grow2To5(b2));
    }
  }

  lemma Join332Parts(v: u8)
    ensures Join332(Red3(v), Green3(v), Blue2(v)) == v
  {
  }

  lemma Red3OfJoin(r: u8, g: u8, b: u8)
    requires r <= 0x7 && g <= 0x7 && b <= 0x3
    ensures Red3(Join332(r, g, b)) == r
  {
  }

  lemma Green3OfJoin(r: u8, g: u8, b: u8)
    requires g <= 0x7 && b <= 0x3
    ensures Green3(Join332(r, g, b)) == g
  {
  }

  lemma Blue2OfJoin(r: u8, g: u8, b: u8)
    requires b <= 0x3
    ensures Blue2(Join332(r, g, b)) == b
  {
  }

  lemma PartsFit332(v: u8)
    ensures Red3(v) <= 0x7 && Green3(v) <= 0x7 && Blue2(v) <= 0x3
  {
  }

  lemma ShrinkGrownRed(v: u8)
    requires v <= 0x7
    ensures (Grow3To5(v) & 0x1f) >> 2 == v
  {
  }

  lemma ShrinkGrownGreen(v: u8)
    requires v <= 0x7
    ensures (Grow3To6(v) & 0x3f) >> 3 == v
  {
  }

  lemma ShrinkGrownBlue(v: u8)
    requires v <= 0x3
    ensures (Grow2To5(v) & 0x1f) >> 3 == v
  {
  }

  lemma GrowShrunkRed(c: u8)
    requires c <= 0x1f
    ensures c >> 2 <= 0x7 && Within(c, Grow3To5(c >> 2) & 0x1f, 3)
  {
  }

  lemma GrowShrunkGreen(c: u8)
    requires c <= 0x3f
    ensures c >> 3 <= 0x7 && Within(c, Grow3To6(c >> 3) & 0x3f, 7)
  {
  }

  lemma GrowShrunkBlue(c: u8)
    requires c <= 0x1f
    ensures c >> 3 <= 0x3 && Within(c, Grow2To5(c >> 3) & 0x1f, 7)
  {
  }

  lemma To332OfFrom332(v: u8)
    ensures To332(From332(v)) == v
  {
    var r, g, b := Red3(v), Green3(v), Blue2(v);
    PartsFit332(v);
    RedOfPack(Grow3To5(r), Grow3To6(g), Grow2To5(b));
    GreenOfPack(Grow3To5(r), Grow3To6(g), Grow2To5(b));
    BlueOfPack(Grow3To5(r), Grow3To6(g), Grow2To5(b));
    ShrinkGrownRed(r);
    ShrinkGrownGreen(g);
    ShrinkGrownBlue(b);
    Join332Parts(v);
  }

  lemma Rgb332IsClose(p: pixel)
    ensures Close(p, From332(To332(p)), 3, 7, 7)
  {
    var r, g, b := Red(p) >> 2, Green(p) >> 3, Blue(p) >> 3;
    RedRange(p);
    GreenRange(p);
    BlueRange(p);
    GrowShrunkRed(Red(p));
    GrowShrunkGreen(Green(p));
    GrowShrunkBlue(Blue(p));
    Red3OfJoin(r, g, b);
    Green3OfJoin(r, g, b);
    Blue2OfJoin(r, g, b);
    RedOfPack(Grow3To5(r), Grow3To6(g), Grow2To5(b));
    GreenOfPack(Grow3To5(r), Grow3To6(g), Grow2To5(b));
    BlueOfPack(Grow3To5(r), Grow3To6(g), Grow2To5(b));
  }

  /** Every byte string is a packed image and comes back; pixels come back within 3, 7 and 7 per channel. */
  lemma Rgb332Retraction(p: Packed, f: Frame)
    ensures Pack332(Unpack332(p)) == p
    ensures var g := Unpack332(Pack332(f));
            forall i :: 0 <= i < |f| ==> Close(f[i], g[i], 3, 7, 7)
  {
    forall i | 0 <= i < |p|
      ensures To332(From332(p[i])) == p[i]
    {
      To332OfFrom332(p[i]);
    }
    forall i | 0 <= i < |f|
      ensures Close(f[i], From332(To332(f[i])), 3, 7, 7)
    {
      Rgb332IsClose(f[i]);
    }
  }

  // ---------------------------------------------------------------- RGB888

  function Expand5(v: u8): u8 { (v << 3) | (v >> 2) }

  function Expand6(v: u8): u8 { (v << 2) | (v >> 4) }

  function FromRgb888(r: u8, g: u8, b: u8): pixel { Pack(r >> 3, g >> 2, b >> 3) }

  lemma ShrinkExpanded5(v: u8)
    requires v <= 0x1f
    ensures Expand5(v) >> 3 == v
  {
  }

  lemma ShrinkExpanded6(v: u8)
    requires v <= 0x3f
    ensures Expand6(v) >> 2 == v
  {
  }

  lemma ExpandShrunk5(c: u8)
    ensures Within(c, Expand5((c >> 3) & 0x1f), 7)
  {
  }

  lemma ExpandShrunk6(c: u8)
    ensures Within(c, Expand6((c >> 2) & 0x3f), 3)
  {
  }

  /** A pixel survives the way through 8 bits per channel; the other way costs at most 7, 3 and 7. */
  lemma Rgb888RoundTrip(p: pixel, r: u8, g: u8, b: u8)
    ensures FromRgb888(Expand5(Red(p)), Expand6(Green(p)), Expand5(Blue(p))) == p
    ensures var q := FromRgb888(r, g, b);
            Within(r, Expand5(Red(q)), 7) && Within(g, Expand6(Green(q)), 3) && Within(b, Expand5(Blue(q)), 7)
  {
    RedRange(p);
    GreenRange(p);
    BlueRange(p);
    ShrinkExpanded5(Red(p));
    ShrinkExpanded6(Green(p));
    ShrinkExpanded5(Blue(p));
    PackUnpack(p);
    RedOfPack(r >> 3, g >> 2, b >> 3);
    GreenOfPack(r >> 3, g >> 2, b >> 3);
    BlueOfPack(r >> 3, g >> 2, b >> 3);
    ExpandShrunk5(r);
    ExpandShrunk6(g);
    ExpandShrunk5(b);
  }

  // ---------------------------------------------------------------- where the bits are

  /** Mild quantisation clears the lowest bit of each channel, and nothing else. */
  lemma MildMasks(p: pixel)
    ensures MildPixel(p) == p & 0xf7de
  {
  }

  /** Moderate quantisation clears one bit of red and blue and two of green. */
  lemma ModerateMasks(p: pixel)
    ensures ModeratePixel(p) == p & 0xf79e
  {
  }

  /** A quantised frame is masked pixel by pixel, in place. */
  lemma MildFrameMasks(f: Frame, i: nat)
    requires i < |f|
    ensures MildFrame(f)[i] == f[i] & 0xf7de
  {
    var p := f[i];
    MildMasks(p);
    assert MildFrame(f)[i] == MildPixel(p);
  }

  lemma ModerateFrameMasks(f: Frame, i: nat)
    requires i < |f|
    ensures ModerateFrame(f)[i] == f[i] & 0xf79e
  {
    var p := f[i];
    ModerateMasks(p);
    assert ModerateFrame(f)[i] == ModeratePixel(p);
  }

  lemma MaskedIsClose(p: pixel)
    ensures Close(p, p & 0xf79e, 1, 3, 1)
  {
  }

  /** So no channel moves by more than 1, 3 and 1, and quantising again changes nothing. */
  lemma ModerateIsClose(p: pixel)
    ensures Close(p, ModeratePixel(p), 1, 3, 1) && ModeratePixel(ModeratePixel(p)) == ModeratePixel(p)
  {
    ModerateMasks(p);
    ModerateMasks(p & 0xf79e);
    MaskedIsClose(p);
  }

  /** The twelve bits kept are the top four of each channel, red first. */
  lemma To444Bits(p: pixel)
    ensures To444(p) == ((p >> 12) << 8) | (((p >> 7) & 0xf) << 4) | ((p >> 1) & 0xf)
  {
  }

  lemma Concatenated(v: bv16, w: bv16)
    requires v <= 0xfff && w <= 0xfff
    ensures ((First444(v) as bv32) << 16) | ((Middle444(v, w) as bv32) << 8) | (Last444(w) as bv32)
         == ((v as bv32) << 12) | (w as bv32)
  {
  }

  /** Two pixels are 24 bits, the first one's in front; an odd frame ends in twelve zeros. */
  lemma PackedOrder444(f: Frame, g: nat)
    requires 2 * g < |f|
    ensures var p, second := Pack444(f), if 2 * g + 1 < |f| then To444(f[2 * g + 1]) else 0;
            ((p[3 * g] as bv32) << 16) | ((p[3 * g + 1] as bv32) << 8) | (p[3 * g + 2] as bv32)
              == ((To444(f[2 * g]) as bv32) << 12) | (second as bv32)
  {
    GroupBytes(f, g);
    To444Fits(f[2 * g]);
    if 2 * g + 1 < |f| {
      To444Fits(f[2 * g + 1]);
    }
    Concatenated(Value444(f, 2 * g), Value444(f, 2 * g + 1));
  }

  /** The eight bits kept are the top three of red and green and the top two of blue. */
  lemma To332Bits(p: pixel)
    ensures To332(p) as pixel == ((p >> 13) << 5) | (((p >> 8) & 0x7) << 2) | ((p >> 3) & 0x3)
  {
  }

  lemma FromRgb888Bits(r: u8, g: u8, b: u8)
    ensures FromRgb888(r, g, b)
         == (((r as pixel) >> 3) << 11) | (((g as pixel) >> 2) << 5) | ((b as pixel) >> 3)
  {
  }

  /** Black and white survive every expansion. */
  lemma FullScale()
    ensures From444(0) == 0 && From444(0xfff) == 0xffff && From332(0) == 0 && From332(0xff) == 0xffff
    ensures Expand5(0) == 0 && Expand5(0x1f) == 0xff && Expand6(0) == 0 && Expand6(0x3f) == 0xff
  {
  }

  /** Expansion keeps the order of channel values. */
  lemma ExpansionsGrow(v: u8, w: u8)
    ensures v <= w <= 0xf ==> Grow4To5(v) <= Grow4To5(w) && Grow4To6(v) <= Grow4To6(w)
    ensures v <= w <= 0x7 ==> Grow3To5(v) <= Grow3To5(w) && Grow3To6(v) <= Grow3To6(w)
    ensures v <= w <= 0x3 ==> Grow2To5(v) <= Grow2To5(w)
    ensures v <= w <= 0x1f ==> Expand5(v) <= Expand5(w)
    ensures v <= w <= 0x3f ==> Expand6(v) <= Expand6(w)
  {
  }
}
