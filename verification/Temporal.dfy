/**
 * The older closed-loop temporal codecs: each frame goes out whole or as the difference to the previous
 * one, with nothing but a header byte to tell the decoder which. Without sequence numbers a decoder
 * cannot notice that it holds another reference than the encoder; the lemmas say exactly what then
 * happens to every frame of a run.
 */
module Temporal {
  import opened Bytes
  import opened Lz4
  import opened Pixels
  import opened Predictors
  import opened Quantise

  datatype Mode = XorMode | SubMode | QuantXorMode

  datatype Context = Context(mode: Mode, interval: u32, index: u32, have: bool, reference: Frame)

  // ---------------------------------------------------------------- what one call computes

  function Minus(m: Mode, p: pixel, q: pixel): pixel {
    if m.SubMode? then SubPixel(p, q) else Xor(p, q)
  }

  function Plus(m: Mode, p: pixel, q: pixel): pixel {
    if m.SubMode? then AddPixel(p, q) else Xor(p, q)
  }

  /** Pixel by pixel, a minus b modulo 65536 or a xor b. */
  function Drift(m: Mode, a: Frame, b: Frame): (d: Frame)
    requires |a| == |b|
    ensures |d| == |a|
  {
    seq(|a|, i requires 0 <= i < |a| => Minus(m, a[i], b[i]))
  }

  function Applied(m: Mode, delta: Frame, reference: Frame): (f: Frame)
    requires |delta| == |reference|
    ensures |f| == |delta|
  {
    seq(|delta|, i requires 0 <= i < |delta| => Plus(m, delta[i], reference[i]))
  }

  /** The frame the encoder means to be reconstructed. */
  function Target(m: Mode, src: Frame): (f: Frame)
    ensures |f| == |src|
  {
    if m.QuantXorMode? then MildFrame(src) else src
  }

  predicate KeyframeDue(c: Context) {
    !c.have || (c.interval != 0 && c.index % c.interval == 0)
  }

  function Advance(c: Context, reference: Frame): Context {
    c.(reference := reference, have := true, index := (c.index + 1) % U32_SPAN)
  }

  function Header(keyframe: bool): u8 { if keyframe then 1 else 0 }

  function Payload(c: Context, src: Frame): (f: Frame)
    requires |src| == |c.reference|
    ensures |f| == |src|
  {
    var target := Target(c.mode, src);
    if KeyframeDue(c) then target else Drift(c.mode, target, c.reference)
  }

  /** None is the error return; it leaves the context alone. */
  function Encode(lz: Codec<u8>, c: Context, src: Frame, cap: nat): (Context, Option<seq<u8>>)
    requires |src| == |c.reference|
  {
    if cap < 1 then (c, None) else
    match Compress(lz, ToBytes(Payload(c, src)), cap - 1)
    case None => (c, None)
    case Some(data) => (Advance(c, Target(c.mode, src)), Some([Header(KeyframeDue(c))] + data))
  }

  /** Any nonzero header means a whole frame; `have` is not looked at. */
  function Decode(lz: Codec<u8>, c: Context, data: seq<u8>): (r: (Context, Option<Frame>))
    ensures r.1.None? ==> r.0 == c
    ensures r.1.Some? ==> r.0 == Advance(c, r.1.value) && |r.1.value| == |c.reference|
  {
    if |data| < 1 then (c, None) else
    var out := Decompress(lz, data[1..], 2 * |c.reference|);
    if out.None? || |out.value| != 2 * |c.reference| then (c, None) else
    var payload := FromBytes(out.value);
    var frame := if data[0] != 0 then payload else Applied(c.mode, payload, c.reference);
    (Advance(c, frame), Some(frame))
  }

  /** What temporal_reset does to a context. */
  function Forgotten(c: Context): Context {
    c.(have := false, index := 0)
  }

  // ---------------------------------------------------------------- the object

  class TemporalContext {
    const mode: Mode
    const keyframeInterval: u32
    const reference: array<pixel>
    var frameIndex: u32
    var haveReference: bool

    ghost function View(): Context
      reads this, reference
    {
      Context(mode, keyframeInterval, frameIndex, haveReference, reference[..])
    }

    constructor (pixels: nat, mode: Mode, interval: u32)
      ensures fresh(reference)
      ensures View() == Context(mode, interval, 0, false, seq(pixels, _ => 0))
    {
      this.mode := mode;
      keyframeInterval := interval;
      frameIndex := 0;
      haveReference := false;
      reference := new pixel[pixels](_ => 0);
    }

    /** The reference stays as it is; only the flag goes. */
    method Reset()
      modifies this
      ensures View() == Forgotten(old(View()))
    {
      haveReference := false;
      frameIndex := 0;
    }

    method IsKeyframeDue() returns (due: bool)
      ensures due == KeyframeDue(View())
    {
      if !haveReference {
        return true;
      }
      if keyframeInterval == 0 {
        return false;
      }
      return frameIndex % keyframeInterval == 0;
    }

    method Differences(target: array<pixel>) returns (delta: array<pixel>)
      requires target.Length == reference.Length
      ensures fresh(delta) && delta[..] == Drift(mode, target[..], reference[..])
    {
      var n := target.Length;
      delta := new pixel[n];
      if mode.SubMode? {
        for i := 0 to n
          invariant forall j :: 0 <= j < i ==> delta[j] == Minus(mode, target[j], reference[j])
        {
          delta[i] := SubPixel(target[i], reference[i]);
        }
      } else {
        for i := 0 to n
          invariant forall j :: 0 <= j < i ==> delta[j] == Minus(mode, target[j], reference[j])
        {
          delta[i] := target[i] ^ reference[i];
        }
      }
    }

    method TargetOf(src: array<pixel>) returns (target: array<pixel>)
      ensures fresh(target) && target[..] == Target(mode, src[..])
    {
      target := new pixel[src.Length];
      if mode.QuantXorMode? {
        QuantiseMild(src, target);
      } else {
        CopyFrame(src, target);
      }
    }

    /** temporal_encode. */
    method EncodeFrame(lz: Codec<u8>, src: array<pixel>, dstCap: nat) returns (written: Option<seq<u8>>)
      requires src.Length == reference.Length && src != reference
      modifies this, reference
      ensures (View(), written) == Encode(lz, old(View()), old(src[..]), dstCap)
    {
      var target := TargetOf(src);
      var keyframe := IsKeyframeDue();
      var payload := target;
      if !keyframe {
        payload := Differences(target);
      }
      if dstCap < 1 {
        return None;
      }
      var compressed := Compress(lz, ToBytes(payload[..]), dstCap - 1);
      if compressed.None? {
        return None;
      }
      CopyFrame(target, reference);
      haveReference := true;
      frameIndex := (frameIndex + 1) % U32_SPAN;
      written := Some([Header(keyframe)] + compressed.value);
    }

    method Reconstruct(payload: Frame, keyframe: bool, dst: array<pixel>)
      requires |payload| == dst.Length == reference.Length && dst != reference
      modifies dst
      ensures dst[..] == if keyframe then payload else Applied(mode, payload, reference[..])
    {
      var n := dst.Length;
      if keyframe {
        for i := 0 to n
          invariant forall j :: 0 <= j < i ==> dst[j] == payload[j]
        {
          dst[i] := payload[i];
        }
      } else if mode.SubMode? {
        for i := 0 to n
          invariant forall j :: 0 <= j < i ==> dst[j] == Plus(mode, payload[j], reference[j])
        {
          dst[i] := AddPixel(payload[i], reference[i]);
        }
      } else {
        for i := 0 to n
          invariant forall j :: 0 <= j < i ==> dst[j] == Plus(mode, payload[j], reference[j])
        {
          dst[i] := payload[i] ^ reference[i];
        }
      }
    }

    /** temporal_decode. */
    method DecodeFrame(lz: Codec<u8>, src: seq<u8>, dst: array<pixel>) returns (ok: bool)
      requires dst.Length == reference.Length && dst != reference
      modifies this, reference, dst
      ensures var (c, frame) := Decode(lz, old(View()), src);
              View() == c && ok == frame.Some? && dst[..] == if ok then frame.value else old(dst[..])
    {
      var n := reference.Length;
      if |src| < 1 {
        return false;
      }
      var out := Decompress(lz, src[1..], 2 * n);
      if out.None? || |out.value| != 2 * n {
        return false;
      }
      Reconstruct(FromBytes(out.value), src[0] != 0, dst);
      CopyFrame(dst, reference);
      haveReference := true;
      frameIndex := (frameIndex + 1) % U32_SPAN;
      ok := true;
    }
  }

  // ---------------------------------------------------------------- what is on the wire

  /** The pixel the encoder means to show. */
  function Wanted(m: Mode, p: pixel): pixel {
    if m.QuantXorMode? then p & 0xf7de else p
  }

  /** What goes over the wire for a pixel: itself, or its difference to the reference. */
  predicate Travels(m: Mode, keyframe: bool, word: pixel, p: pixel, reference: pixel) {
    word == if keyframe then Wanted(m, p) else if m.SubMode? then p - reference else Wanted(m, p) ^ reference
  }

  function WantedPixel(m: Mode, p: pixel): pixel {
    if m.QuantXorMode? then MildPixel(p) else p
  }

  lemma WantedIs(m: Mode, p: pixel)
    ensures WantedPixel(m, p) == Wanted(m, p)
  {
    MildMasks(p);
  }

  lemma MinusTravels(m: Mode, p: pixel, reference: pixel)
    ensures Travels(m, false, Minus(m, WantedPixel(m, p), reference), p, reference)
  {
    WantedIs(m, p);
    var word := Minus(m, WantedPixel(m, p), reference);
    if m.SubMode? {
      assert word == p - reference;
    } else {
      assert word == Wanted(m, p) ^ reference;
    }
  }

  lemma PayloadPixel(c: Context, src: Frame, i: nat)
    requires |src| == |c.reference| && i < |src|
    ensures Payload(c, src)[i] == if KeyframeDue(c) then WantedPixel(c.mode, src[i])
                                  else Minus(c.mode, WantedPixel(c.mode, src[i]), c.reference[i])
  {
    assert Target(c.mode, src)[i] == WantedPixel(c.mode, src[i]);
  }

  lemma PayloadIs(c: Context, src: Frame, i: nat)
    requires |src| == |c.reference| && i < |src|
    ensures Travels(c.mode, KeyframeDue(c), Payload(c, src)[i], src[i], c.reference[i])
  {
    PayloadPixel(c, src, i);
    if KeyframeDue(c) {
      WantedIs(c.mode, src[i]);
    } else {
      MinusTravels(c.mode, src[i], c.reference[i]);
    }
  }

  /**
   * The record: a byte that is 1 for a whole frame and 0 for a difference, and the compressed pixels; whole
   * frames go out first, and then at multiples of a nonzero interval.
   */
  lemma RecordIs(lz: Codec<u8>, c: Context, src: Frame, cap: nat)
    requires Faithful(lz) && |src| == |c.reference| && Encode(lz, c, src, cap).1.Some?
    ensures var keyframe := !c.have || (c.interval > 0 && c.index % c.interval == 0);
            var data := Encode(lz, c, src, cap).1.value;
            && 0 < |data| <= cap && data[0] == (if keyframe then 1 else 0)
            && Decompress(lz, data[1..], 2 * |src|) == Some(ToBytes(Payload(c, src)))
            && forall i :: 0 <= i < |src| ==> Travels(c.mode, keyframe, Payload(c, src)[i], src[i], c.reference[i])
  {
    var packed := Compress(lz, ToBytes(Payload(c, src)), cap - 1);
    CompressUndone(lz, ToBytes(Payload(c, src)), cap - 1);
    assert ([Header(KeyframeDue(c))] + packed.value)[1..] == packed.value;
    forall i | 0 <= i < |src|
      ensures Travels(c.mode, KeyframeDue(c), Payload(c, src)[i], src[i], c.reference[i])
    {
      PayloadIs(c, src, i);
    }
  }

  /** What the decoder shows for a word of the payload. */
  predicate Shows(m: Mode, whole: bool, shown: pixel, word: pixel, reference: pixel) {
    shown == if whole then word else if m.SubMode? then word + reference else word ^ reference
  }

  lemma PlusShows(m: Mode, word: pixel, reference: pixel)
    ensures Shows(m, false, Plus(m, word, reference), word, reference)
  {
    var shown := Plus(m, word, reference);
    if m.SubMode? {
      assert shown == word + reference;
    } else {
      assert shown == word ^ reference;
    }
  }

  /** Any record is decoded exactly when it has a header and decompresses to a frame; any nonzero header means whole. */
  lemma DecodingIs(lz: Codec<u8>, c: Context, data: seq<u8>)
    ensures var shown := Decode(lz, c, data).1;
            var out := if data == [] then None else Decompress(lz, data[1..], 2 * |c.reference|);
            && (shown.Some? <==> out.Some? && |out.value| == 2 * |c.reference|)
            && (shown.Some? ==>
                  forall i :: 0 <= i < |c.reference| ==>
                    Shows(c.mode, data[0] != 0, shown.value[i], FromBytes(out.value)[i], c.reference[i]))
  {
    var shown := Decode(lz, c, data).1;
    if shown.Some? {
      var words := FromBytes(Decompress(lz, data[1..], 2 * |c.reference|).value);
      forall i | 0 <= i < |c.reference|
        ensures Shows(c.mode, data[0] != 0, shown.value[i], words[i], c.reference[i])
      {
        PlusShows(c.mode, words[i], c.reference[i]);
        assert data[0] == 0 ==> shown.value[i] == Plus(c.mode, words[i], c.reference[i]);
      }
    }
  }

  // ---------------------------------------------------------------- drift

  lemma SubCancels(t: pixel, e: pixel, d: pixel)
    ensures SubPixel(AddPixel(SubPixel(t, e), d), t) == SubPixel(d, e)
  {
    calc {
      SubPixel(AddPixel(SubPixel(t, e), d), t);
      SubPixel(AddPixel(t - e, d), t);
      SubPixel(t - e + d, t);
      t - e + d - t;
      d - e;
      SubPixel(d, e);
    }
  }

  lemma XorCancels(t: pixel, e: pixel, d: pixel)
    ensures Xor(Xor(Xor(t, e), d), t) == Xor(d, e)
  {
  }

  lemma PixelDrift(m: Mode, t: pixel, e: pixel, d: pixel)
    ensures Minus(m, Plus(m, Minus(m, t, e), d), t) == Minus(m, d, e)
  {
    if m.SubMode? {
      SubCancels(t, e, d);
    } else {
      XorCancels(t, e, d);
    }
  }

  lemma SubZero(p: pixel, q: pixel)
    ensures SubPixel(p, q) == 0 <==> p == q
  {
    if SubPixel(p, q) == 0 {
      SubAddPixel(p, q);
      SubAddPixel(q, q);
      calc {
        SubPixel(q, q);
        q - q;
        0;
      }
    }
  }

  lemma XorZero(p: pixel, q: pixel)
    ensures Xor(p, q) == 0 <==> p == q
  {
    XorTwice(p, q);
    if Xor(p, q) == 0 {
      assert Xor(0, q) == q;
    }
  }

  /** No drift means equal frames, and nothing else does. */
  lemma SameDrift(m: Mode, a: Frame, b: Frame, c: Frame, d: Frame)
    requires |a| == |b| == |c| == |d| && Drift(m, a, b) == Drift(m, c, d)
    ensures a == b <==> c == d
  {
    forall i | 0 <= i < |a|
      ensures a[i] == b[i] <==> c[i] == d[i]
    {
      assert Drift(m, a, b)[i] == Drift(m, c, d)[i];
      SubZero(a[i], b[i]);
      SubZero(c[i], d[i]);
      XorZero(a[i], b[i]);
      XorZero(c[i], d[i]);
    }
  }

  // ---------------------------------------------------------------- runs delivered in order

  /** temporal_bound: room for the header byte and the worst compression. */
  predicate Enough(lz: Codec<u8>, n: nat, cap: nat) {
    cap > 0 && Roomy(lz, 2 * n, cap - 1)
  }

  ghost predicate Paired(lz: Codec<u8>, e: Context, d: Context, n: nat, cap: nat) {
    Faithful(lz) && Enough(lz, n, cap) && e.mode == d.mode && |e.reference| == |d.reference| == n
  }

  /** One frame from encoder to decoder: a whole frame replaces any mismatch, a difference carries it over. */
  lemma FrameArrives(lz: Codec<u8>, e: Context, d: Context, src: Frame, cap: nat)
    requires Paired(lz, e, d, |src|, cap)
    ensures var (e2, data) := Encode(lz, e, src, cap);
            && data.Some? && e2 == Advance(e, Target(e.mode, src))
            && var (d2, frame) := Decode(lz, d, data.value);
               && frame.Some? && d2 == Advance(d, frame.value) && |frame.value| == |src|
               && (KeyframeDue(e) ==> frame.value == Target(e.mode, src))
               && (!KeyframeDue(e) ==>
                     Drift(e.mode, frame.value, Target(e.mode, src)) == Drift(e.mode, d.reference, e.reference))
  {
    var target := Target(e.mode, src);
    var payload := Payload(e, src);
    CompressSucceeds(lz, ToBytes(payload), cap - 1);
    var packed := Compress(lz, ToBytes(payload), cap - 1).value;
    CompressUndone(lz, ToBytes(payload), cap - 1);
    FromToBytes(payload);
    assert ([Header(KeyframeDue(e))] + packed)[1..] == packed;
    if !KeyframeDue(e) {
      var frame := Applied(e.mode, payload, d.reference);
      forall i | 0 <= i < |src|
        ensures Drift(e.mode, frame, target)[i] == Drift(e.mode, d.reference, e.reference)[i]
      {
        PixelDrift(e.mode, target[i], e.reference[i], d.reference[i]);
      }
    }
  }

  /** The decoder's frames when all of `frames` are encoded and delivered in order. */
  function Received(lz: Codec<u8>, e: Context, d: Context, frames: seq<Frame>, cap: nat): (out: seq<Option<Frame>>)
    requires forall f :: f in frames ==> |f| == |e.reference|
    ensures |out| == |frames|
    decreases |frames|
  {
    if frames == [] then [] else
    match Encode(lz, e, frames[0], cap)
    case (e2, None) => [None] + Received(lz, e2, d, frames[1..], cap)
    case (e2, Some(data)) =>
      var (d2, frame) := Decode(lz, d, data);
      [frame] + Received(lz, e2, d2, frames[1..], cap)
  }

  /** Whether the encoder sends a whole frame k frames from now. */
  predicate KeyframeAt(e: Context, k: nat) {
    if k == 0 then KeyframeDue(e)
    else e.interval != 0 && (e.index + k) % U32_SPAN % e.interval == 0
  }

  predicate KeyframeBy(e: Context, k: nat) {
    KeyframeAt(e, k) || (k > 0 && KeyframeBy(e, k - 1))
  }

  lemma {:induction false} KeyframeLater(e: Context, f: Frame, k: nat)
    ensures KeyframeBy(e, k + 1) <==> KeyframeDue(e) || KeyframeBy(Advance(e, f), k)
  {
    var next := Advance(e, f);
    assert (next.index + k) % U32_SPAN == (e.index + k + 1) % U32_SPAN;
    assert KeyframeAt(e, k + 1) == KeyframeAt(next, k);
    if k > 0 {
      KeyframeLater(e, f, k - 1);
    }
  }

  /** Frame k of a run: exact once a keyframe has passed, until then off by the initial mismatch, pixel by pixel. */
  lemma {:induction false} DriftOfRun(
    lz: Codec<u8>, e: Context, d: Context, frames: seq<Frame>, cap: nat, n: nat, k: nat)
    requires Paired(lz, e, d, n, cap) && k < |frames| && forall f :: f in frames ==> |f| == n
    ensures var out := Received(lz, e, d, frames, cap)[k];
            && out.Some? && |out.value| == n
            && (KeyframeBy(e, k) ==> out.value == Target(e.mode, frames[k]))
            && (!KeyframeBy(e, k) ==>
                  Drift(e.mode, out.value, Target(e.mode, frames[k])) == Drift(e.mode, d.reference, e.reference))
    decreases k
  {
    FrameArrives(lz, e, d, frames[0], cap);
    if k > 0 {
      var (e2, data) := Encode(lz, e, frames[0], cap);
      var (d2, frame) := Decode(lz, d, data.value);
      KeyframeLater(e, Target(e.mode, frames[0]), k - 1);
      DriftOfRun(lz, e2, d2, frames[1..], cap, n, k - 1);
      if KeyframeDue(e) {
        SameDriftIsExact(e.mode, Received(lz, e2, d2, frames[1..], cap)[k - 1].value, Target(e.mode, frames[k]),
                         KeyframeBy(e2, k - 1), d2.reference);
      }
    }
  }

  /** With equal references there is nothing to carry over. */
  lemma SameDriftIsExact(m: Mode, out: Frame, target: Frame, exact: bool, reference: Frame)
    requires |out| == |target| == |reference|
    requires if exact then out == target else Drift(m, out, target) == Drift(m, reference, reference)
    ensures out == target
  {
    if !exact {
      SameDrift(m, out, target, reference, reference);
    }
  }

  /** Decoding is correct exactly when a keyframe has passed or the references agreed from the start. */
  lemma CorrectIffAgreed(lz: Codec<u8>, e: Context, d: Context, frames: seq<Frame>, cap: nat, n: nat, k: nat)
    requires Paired(lz, e, d, n, cap) && k < |frames| && forall f :: f in frames ==> |f| == n
    ensures Received(lz, e, d, frames, cap)[k] == Some(Target(e.mode, frames[k]))
            <==> KeyframeBy(e, k) || d.reference == e.reference
  {
    DriftOfRun(lz, e, d, frames, cap, n, k);
    if !KeyframeBy(e, k) {
      SameDrift(e.mode, Received(lz, e, d, frames, cap)[k].value, Target(e.mode, frames[k]), d.reference, e.reference);
    }
  }

  /** What a decoder makes of any packets. */
  function Answers(lz: Codec<u8>, c: Context, packets: seq<seq<u8>>): seq<Option<Frame>>
    decreases |packets|
  {
    if packets == [] then [] else
    var (next, frame) := Decode(lz, c, packets[0]);
    [frame] + Answers(lz, next, packets[1..])
  }

  /** A decoder answers from its mode and reference alone. */
  lemma {:induction false} ReferenceDecides(lz: Codec<u8>, c: Context, d: Context, packets: seq<seq<u8>>)
    requires c.mode == d.mode && c.reference == d.reference
    ensures Answers(lz, c, packets) == Answers(lz, d, packets)
    decreases |packets|
  {
    if packets != [] {
      ReferenceDecides(lz, Decode(lz, c, packets[0]).0, Decode(lz, d, packets[0]).0, packets[1..]);
    }
  }

  /** A reset decoder accepts whatever it would have accepted without the reset, and shows the same frames for good. */
  lemma ResetIsIgnored(lz: Codec<u8>, c: Context, packets: seq<seq<u8>>)
    ensures Answers(lz, Forgotten(c), packets) == Answers(lz, c, packets)
  {
    ReferenceDecides(lz, Forgotten(c), c, packets);
  }

  lemma XorSame(a: pixel, b: pixel, c: pixel)
    requires Xor(a, b) == Xor(c, b)
    ensures a == c
  {
  }

  /** Equal mismatches with the same frame: the frames are equal. */
  lemma DriftSame(a: Frame, b: Frame, c: Frame)
    requires |a| == |b| == |c| && Drift(XorMode, a, b) == Drift(XorMode, c, b)
    ensures a == c
  {
    forall i | 0 <= i < |a|
      ensures a[i] == c[i]
    {
      assert Drift(XorMode, a, b)[i] == Drift(XorMode, c, b)[i];
      XorSame(a[i], b[i], c[i]);
    }
  }

  /**
   * With any codec with room for one pixel, from fresh contexts: the keyframe 0 arrives, the difference to
   * 1 is lost, the decoder is reset, and the next difference, for 1 again, is accepted and shown as 0.
   */
  lemma ResetDecoderShowsWrongFrame(lz: Codec<u8>, cap: nat)
    requires Faithful(lz) && Enough(lz, 1, cap)
    ensures var initial := Context(XorMode, 0, 0, false, [0]);
            var (e1, first) := Encode(lz, initial, [0], cap);
            var (e2, lost) := Encode(lz, e1, [1], cap);
            var (_, second) := Encode(lz, e2, [1], cap);
            && first.Some? && lost.Some? && second.Some?
            && var (d1, shown) := Decode(lz, initial, first.value);
               shown == Some([0]) && Decode(lz, Forgotten(d1), second.value).1 == Some([0])
  {
    var initial := Context(XorMode, 0, 0, false, [0]);
    FrameArrives(lz, initial, initial, [0], cap);
    var (e1, first) := Encode(lz, initial, [0], cap);
    var (d1, _) := Decode(lz, initial, first.value);
    FrameArrives(lz, e1, d1, [1], cap);
    var (e2, _) := Encode(lz, e1, [1], cap);
    FrameArrives(lz, e2, Forgotten(d1), [1], cap);
    var (_, second) := Encode(lz, e2, [1], cap);
    DriftSame(Decode(lz, Forgotten(d1), second.value).1.value, [1], [0]);
  }

  lemma {:induction false} FirstIsKeyframe(e: Context, k: nat)
    requires !e.have
    ensures KeyframeBy(e, k)
  {
    if k > 0 {
      FirstIsKeyframe(e, k - 1);
    }
  }

  /**
   * From a fresh or reset encoder, whatever the decoder held: every frame of the run is reconstructed,
   * exactly in the lossless modes and within one per channel in the quantised mode, however long the run.
   */
  lemma NoAccumulation(lz: Codec<u8>, e: Context, d: Context, frames: seq<Frame>, cap: nat, n: nat, k: nat)
    requires Paired(lz, e, d, n, cap) && !e.have && k < |frames| && forall f :: f in frames ==> |f| == n
    ensures var out := Received(lz, e, d, frames, cap)[k];
            && out.Some? && |out.value| == n
            && (!e.mode.QuantXorMode? ==> out.value == frames[k])
            && forall i :: 0 <= i < n ==> Close(frames[k][i], out.value[i], 1, 1, 1)
  {
    FirstIsKeyframe(e, k);
    DriftOfRun(lz, e, d, frames, cap, n, k);
    forall i | 0 <= i < n
      ensures Close(frames[k][i], Target(e.mode, frames[k])[i], 1, 1, 1)
    {
      MildIsClose(frames[k][i]);
    }
  }
}
