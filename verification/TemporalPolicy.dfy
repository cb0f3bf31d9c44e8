/**
 * The keyframe/delta transport: an encoder that sends whole frames or differences to the previous one,
 * a decoder that recognises by sequence number whether a difference applies, and the adaptive policy.
 *
 * The two classes keep their reference frames in place as the bench does; `Encode` and `Decode` say what
 * their methods compute. The lemmas are about those functions: safety over any channel, optimality of
 * the adaptive policy, and resynchronisation.
 */
module TemporalPolicy {
  import opened Bytes
  import opened Lz4
  import opened Pixels

  const NO_SEQ: u32 := 0xFFFF_FFFF

  datatype FrameType = Keyframe | Delta
  datatype Mode = FixedInterval(interval: u32) | Adaptive
  datatype Status = Ok | ReferenceMismatch | Corrupt | NeedKeyframe

  /** What travels: the record fields and the payload. */
  datatype Packet = Packet(sequence: u32, frameType: FrameType, base: u32, payload: seq<u8>)

  datatype EncoderState = EncoderState(reference: Frame, last: u32, force: bool)
  datatype DecoderState = DecoderState(reference: Frame, last: u32)

  // ---------------------------------------------------------------- what one call computes

  function Difference(e: EncoderState, src: Frame): Frame
    requires |src| == |e.reference|
  {
    XorFrames(src, e.reference)
  }

  function Candidate(lz: Codec<u8>, f: Frame, cap: nat): Option<seq<u8>> {
    Compress(lz, ToBytes(f), cap)
  }

  /** The adaptive choice: the difference only when it compresses, and to strictly fewer bytes. */
  function PrefersDelta(normal: Option<seq<u8>>, delta: Option<seq<u8>>): bool {
    delta.Some? && (normal.None? || |delta.value| < |normal.value|)
  }

  function WantsKeyframe(lz: Codec<u8>, e: EncoderState, src: Frame, mode: Mode, sequence: u32, cap: nat): bool
    requires |src| == |e.reference|
  {
    if e.force || e.last == NO_SEQ then true else
    match mode
    case Adaptive => !PrefersDelta(Candidate(lz, src, cap), Candidate(lz, Difference(e, src), cap))
    case FixedInterval(n) => n != 0 && sequence % n == 0
  }

  /** Sends src as the given type. A failed compression drops the force flag and changes nothing else. */
  function Send(lz: Codec<u8>, e: EncoderState, src: Frame, frameType: FrameType, sequence: u32, cap: nat)
    : (EncoderState, Option<Packet>)
    requires |src| == |e.reference|
  {
    match Candidate(lz, if frameType.Keyframe? then src else Difference(e, src), cap)
    case None => (e.(force := false), None)
    case Some(payload) =>
      (EncoderState(src, sequence, false),
       Some(Packet(sequence, frameType, if frameType.Keyframe? then NO_SEQ else e.last, payload)))
  }

  function Encode(lz: Codec<u8>, e: EncoderState, src: Frame, mode: Mode, sequence: u32, cap: nat)
    : (EncoderState, Option<Packet>)
    requires |src| == |e.reference|
  {
    Send(lz, e, src, if WantsKeyframe(lz, e, src, mode, sequence, cap) then Keyframe else Delta, sequence, cap)
  }

  datatype Decoding = Decoding(status: Status, state: DecoderState, frame: Frame)

  /** On any error the state is the one before; the frame then means nothing. */
  function Decode(lz: Codec<u8>, d: DecoderState, p: Packet): (r: Decoding)
    ensures r.status != Ok ==> r.state == d
    ensures r.status.Ok? ==> r.state == DecoderState(r.frame, p.sequence) && |r.frame| == |d.reference|
  {
    if p.frameType.Delta? && d.last == NO_SEQ then Decoding(NeedKeyframe, d, [])
    else if p.frameType.Delta? && d.last != p.base then Decoding(ReferenceMismatch, d, [])
    else
      var out := Decompress(lz, p.payload, 2 * |d.reference|);
      if out.None? || |out.value| != 2 * |d.reference| then Decoding(Corrupt, d, [])
      else
        var image := FromBytes(out.value);
        var frame := if p.frameType.Delta? then XorFrames(image, d.reference) else image;
        Decoding(Ok, DecoderState(frame, p.sequence), frame)
  }

  // ---------------------------------------------------------------- the objects

  class Encoder {
    const reference: array<pixel>
    var lastSequence: u32
    var forceKeyframeNext: bool

    ghost function View(): EncoderState
      reads this, reference
    {
      EncoderState(reference[..], lastSequence, forceKeyframeNext)
    }

    constructor (pixels: nat)
      ensures fresh(reference) && reference.Length == pixels
      ensures View() == EncoderState(seq(pixels, _ => 0), NO_SEQ, false)
    {
      reference := new pixel[pixels](_ => 0);
      lastSequence := NO_SEQ;
      forceKeyframeNext := false;
    }

    method ForceKeyframe()
      modifies this
      ensures View() == old(View()).(force := true)
    {
      forceKeyframeNext := true;
    }

    method DeltaTo(src: array<pixel>) returns (delta: Frame)
      requires src.Length == reference.Length
      ensures delta == Difference(View(), src[..])
    {
      var buffer := new pixel[src.Length];
      for i := 0 to src.Length
        invariant buffer[..i] == XorFrames(src[..i], reference[..i])
      {
        buffer[i] := src[i] ^ reference[i];
      }
      assert src[..src.Length] == src[..] && reference[..src.Length] == reference[..];
      delta := buffer[..];
    }

    /**
     * tpolicy_encode. Where the two candidates are compared and both fail, the C code copies (size_t)-1
     * bytes, so there the caller must provide room for one of them (tpolicy_bound does for both).
     */
    method EncodeFrame(lz: Codec<u8>, src: array<pixel>, mode: Mode, sequence: u32, dstCap: nat)
      returns (packet: Option<Packet>)
      requires src.Length == reference.Length && src != reference
      requires mode.Adaptive? && !forceKeyframeNext && lastSequence != NO_SEQ ==>
                 Candidate(lz, src[..], dstCap).Some? || Candidate(lz, Difference(View(), src[..]), dstCap).Some?
      modifies this, reference
      ensures (View(), packet) == Encode(lz, old(View()), old(src[..]), mode, sequence, dstCap)
      ensures src[..] == old(src[..])
    {
      var haveReference := lastSequence != NO_SEQ;
      var wantKeyframe;
      var normal, delta := None, None;
      if forceKeyframeNext {
        wantKeyframe := true;
        forceKeyframeNext := false;
      } else if !haveReference {
        wantKeyframe := true;
      } else if mode.Adaptive? {
        normal := Candidate(lz, src[..], dstCap);
        var difference := DeltaTo(src);
        delta := Candidate(lz, difference, dstCap);
        wantKeyframe := !(delta.Some? && (normal.None? || |delta.value| < |normal.value|));
      } else {
        wantKeyframe := mode.interval != 0 && sequence % mode.interval == 0;
      }
      if wantKeyframe {
        var written := if normal.Some? then normal else Candidate(lz, src[..], dstCap);
        if written.None? {
          return None;
        }
        packet := Some(Packet(sequence, Keyframe, NO_SEQ, written.value));
      } else {
        var written := delta;
        if delta.None? {
          var difference := DeltaTo(src);
          written := Candidate(lz, difference, dstCap);
        }
        if written.None? {
          return None;
        }
        packet := Some(Packet(sequence, Delta, lastSequence, written.value));
      }
      CopyFrame(src, reference);
      lastSequence := sequence;
    }
  }

  class Decoder {
    const reference: array<pixel>
    var lastSequence: u32

    ghost function View(): DecoderState
      reads this, reference
    {
      DecoderState(reference[..], lastSequence)
    }

    constructor (pixels: nat)
      ensures fresh(reference) && reference.Length == pixels
      ensures View() == DecoderState(seq(pixels, _ => 0), NO_SEQ)
    {
      reference := new pixel[pixels](_ => 0);
      lastSequence := NO_SEQ;
    }

    method Reset()
      modifies this, reference
      ensures View() == DecoderState(seq(reference.Length, _ => 0), NO_SEQ)
    {
      lastSequence := NO_SEQ;
      for i := 0 to reference.Length
        invariant lastSequence == NO_SEQ && reference[..i] == seq(i, _ => 0)
      {
        reference[i] := 0;
      }
      assert reference[..reference.Length] == reference[..];
    }

    /** tpolicy_decode: dst holds the frame on Ok; on any error the decoder is untouched. */
    method DecodeFrame(lz: Codec<u8>, p: Packet, dst: array<pixel>) returns (status: Status)
      requires dst.Length == reference.Length && dst != reference
      modifies this, reference, dst
      ensures status == Decode(lz, old(View()), p).status && View() == Decode(lz, old(View()), p).state
      ensures status.Ok? ==> dst[..] == Decode(lz, old(View()), p).frame
      ensures !status.Ok? ==> View() == old(View())
    {
      var n := reference.Length;
      if p.frameType.Delta? {
        if lastSequence == NO_SEQ {
          return NeedKeyframe;
        }
        if lastSequence != p.base {
          return ReferenceMismatch;
        }
      }
      var out := Decompress(lz, p.payload, 2 * n);
      if out.None? || |out.value| != 2 * n {
        return Corrupt;
      }
      ghost var image := FromBytes(out.value);
      for i := 0 to n
        invariant dst[..i] == image[..i] && View() == old(View())
      {
        dst[i] := FromBytes(out.value)[i];
      }
      assert dst[..] == image;
      if p.frameType.Delta? {
        for i := 0 to n
          invariant dst[..i] == XorFrames(image[..i], reference[..i]) && dst[i..] == image[i..]
          invariant View() == old(View())
        {
          dst[i] := dst[i] ^ reference[i];
        }
        assert image[..n] == image && reference[..n] == reference[..] && dst[..n] == dst[..];
      }
      CopyFrame(dst, reference);
      lastSequence := p.sequence;
      return Ok;
    }
  }
}
