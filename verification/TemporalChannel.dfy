/**
 * What the keyframe/delta transport guarantees over whole runs: safety over a channel that loses,
 * repeats, reorders and damages packets; optimality of the adaptive policy; resynchronisation.
 */
module TemporalChannel {
  import opened Arith
  import opened Bytes
  import opened Lz4
  import opened Pixels
  import opened TemporalPolicy

  // ---------------------------------------------------------------- safety over any channel

  /** What the decoder went through: resets, and packets with their answers. */
  datatype Entry = WasReset | Got(packet: Packet, damaged: bool, status: Status)

  /**
   * Both ends, every packet sent, the frame each number was given to, what the decoder accepted, and all
   * it went through.
   */
  datatype System = System(
    enc: EncoderState, dec: DecoderState, sent: seq<Packet>, frames: map<u32, Frame>, accepted: seq<(u32, Frame)>,
    log: seq<Entry>)

  datatype Action =
    | EncodeNext(src: Frame, mode: Mode, sequence: u32, cap: nat)
    | ForceKeyframe
    | ResetDecoder
    | Deliver(index: nat)
    | DeliverDamaged(header: Packet)

  function Blank(n: nat): Frame {
    seq(n, _ => 0)
  }

  function Initial(n: nat): System {
    System(EncoderState(Blank(n), NO_SEQ, false), DecoderState(Blank(n), NO_SEQ), [], map[], [], [])
  }

  /**
   * Sequence numbers are fresh and never the reserved one; any packet sent so far may arrive, any number
   * of times and in any order; a damaged one has a payload that does not decompress to a frame.
   */
  predicate Enabled(lz: Codec<u8>, n: nat, s: System, a: Action) {
    match a
    case EncodeNext(src, _, sequence, _) => |src| == n && sequence != NO_SEQ && sequence !in s.frames
    case Deliver(index) => index < |s.sent|
    case DeliverDamaged(header) =>
      var out := Decompress(lz, header.payload, 2 * n);
      out.None? || |out.value| != 2 * n
    case _ => true
  }

  function Receive(lz: Codec<u8>, s: System, p: Packet, damaged: bool): System {
    var r := Decode(lz, s.dec, p);
    s.(dec := r.state, accepted := if r.status.Ok? then s.accepted + [(p.sequence, r.frame)] else s.accepted,
       log := s.log + [Got(p, damaged, r.status)])
  }

  function Next(lz: Codec<u8>, s: System, a: Action): System
    requires a.EncodeNext? ==> |a.src| == |s.enc.reference|
    requires a.Deliver? ==> a.index < |s.sent|
  {
    match a
    case EncodeNext(src, mode, sequence, cap) =>
      (match Encode(lz, s.enc, src, mode, sequence, cap)
       case (e, None) => s.(enc := e)
       case (e, Some(p)) => s.(enc := e, sent := s.sent + [p], frames := s.frames[sequence := src]))
    case ForceKeyframe => s.(enc := s.enc.(force := true))
    case ResetDecoder => s.(dec := DecoderState(Blank(|s.dec.reference|), NO_SEQ), log := s.log + [WasReset])
    case Deliver(index) => Receive(lz, s, s.sent[index], false)
    case DeliverDamaged(header) => Receive(lz, s, header, true)
  }

  /** A packet says how to get its frame: from itself, or from the frame its base number was given to. */
  ghost predicate Honest(lz: Codec<u8>, n: nat, frames: map<u32, Frame>, p: Packet) {
    && p.sequence in frames && p.sequence != NO_SEQ && |frames[p.sequence]| == n
    && match p.frameType
       case Keyframe => Decompress(lz, p.payload, 2 * n) == Some(ToBytes(frames[p.sequence]))
       case Delta =>
         && p.base in frames && |frames[p.base]| == n
         && Decompress(lz, p.payload, 2 * n) == Some(ToBytes(XorFrames(frames[p.sequence], frames[p.base])))
  }

  ghost predicate Safe(lz: Codec<u8>, n: nat, s: System) {
    && |s.enc.reference| == n && |s.dec.reference| == n
    && (s.enc.last != NO_SEQ ==> s.enc.last in s.frames && s.frames[s.enc.last] == s.enc.reference)
    && (s.dec.last != NO_SEQ ==> s.dec.last in s.frames && s.frames[s.dec.last] == s.dec.reference)
    && (forall p :: p in s.sent ==> Honest(lz, n, s.frames, p))
    && (forall o :: o in s.accepted ==> o.0 in s.frames && o.1 == s.frames[o.0])
  }

  lemma SendIsHonest(lz: Codec<u8>, n: nat, s: System, src: Frame, frameType: FrameType, sequence: u32, cap: nat)
    requires Faithful(lz) && Safe(lz, n, s) && |src| == n && sequence != NO_SEQ && sequence !in s.frames
    requires frameType.Delta? ==> s.enc.last != NO_SEQ
    ensures var (e, p) := Send(lz, s.enc, src, frameType, sequence, cap);
            p.Some? ==> Honest(lz, n, s.frames[sequence := src], p.value)
  {
    CompressUndoneFor(lz, if frameType.Keyframe? then src else Difference(s.enc, src), cap);
  }

  lemma CompressUndoneFor(lz: Codec<u8>, f: Frame, cap: nat)
    requires Faithful(lz)
    ensures Candidate(lz, f, cap).Some? ==>
              Decompress(lz, Candidate(lz, f, cap).value, 2 * |f|) == Some(ToBytes(f))
  {
  }

  lemma EncodeKeepsSafe(lz: Codec<u8>, n: nat, s: System, a: Action)
    requires Faithful(lz) && Safe(lz, n, s) && a.EncodeNext? && Enabled(lz, n, s, a)
    ensures Safe(lz, n, Next(lz, s, a))
  {
    var key := WantsKeyframe(lz, s.enc, a.src, a.mode, a.sequence, a.cap);
    SendIsHonest(lz, n, s, a.src, if key then Keyframe else Delta, a.sequence, a.cap);
    var s' := Next(lz, s, a);
    forall p | p in s'.sent
      ensures Honest(lz, n, s'.frames, p)
    {
      if p in s.sent {
        assert Honest(lz, n, s.frames, p);
      }
    }
  }

  /** An honest packet whose base (if any) is the decoder's frame decodes to the frame it was made from. */
  lemma DecodeHonest(lz: Codec<u8>, n: nat, frames: map<u32, Frame>, d: DecoderState, p: Packet)
    requires |d.reference| == n && Honest(lz, n, frames, p)
    requires d.last != NO_SEQ ==> d.last in frames && frames[d.last] == d.reference
    ensures Decode(lz, d, p).status.Ok? <==> p.frameType.Keyframe? || (d.last != NO_SEQ && d.last == p.base)
    ensures Decode(lz, d, p).status.Ok? ==> Decode(lz, d, p).frame == frames[p.sequence]
  {
    FromToBytes(frames[p.sequence]);
    if p.frameType.Delta? {
      FromToBytes(XorFrames(frames[p.sequence], frames[p.base]));
      XorFramesTwice(frames[p.sequence], frames[p.base]);
    }
  }

  /** Every action keeps the system safe. */
  lemma StepKeepsSafe(lz: Codec<u8>, n: nat, s: System, a: Action)
    requires Faithful(lz) && Safe(lz, n, s) && Enabled(lz, n, s, a)
    ensures Safe(lz, n, Next(lz, s, a))
  {
    match a
    case EncodeNext(_, _, _, _) => EncodeKeepsSafe(lz, n, s, a);
    case Deliver(index) =>
      assert s.sent[index] in s.sent;
      DecodeHonest(lz, n, s.frames, s.dec, s.sent[index]);
    case _ =>
  }

  /** The states a sequence of enabled actions can reach. */
  ghost predicate Reaches(lz: Codec<u8>, n: nat, s: System, actions: seq<Action>, end: System)
    decreases |actions|
  {
    if actions == [] then s == end
    else
      && |s.enc.reference| == n && Enabled(lz, n, s, actions[0])
      && Reaches(lz, n, Next(lz, s, actions[0]), actions[1..], end)
  }

  lemma {:induction false} ReachableIsSafe(lz: Codec<u8>, n: nat, s: System, actions: seq<Action>, end: System)
    requires Faithful(lz) && Safe(lz, n, s) && Reaches(lz, n, s, actions, end)
    ensures Safe(lz, n, end)
    decreases |actions|
  {
    if actions != [] {
      StepKeepsSafe(lz, n, s, actions[0]);
      ReachableIsSafe(lz, n, Next(lz, s, actions[0]), actions[1..], end);
    }
  }

  /**
   * In every run from fresh ends, each accepted packet showed exactly the frame its number was given to,
   * and the decoder's reference is the frame its last number names.
   */
  lemma ChannelSafety(lz: Codec<u8>, n: nat, actions: seq<Action>, end: System)
    requires Faithful(lz) && Reaches(lz, n, Initial(n), actions, end)
    ensures forall o :: o in end.accepted ==> o.0 in end.frames && o.1 == end.frames[o.0]
    ensures end.dec.last != NO_SEQ ==> end.dec.last in end.frames && end.dec.reference == end.frames[end.dec.last]
  {
    ReachableIsSafe(lz, n, Initial(n), actions, end);
  }

  /** The word sent for a pixel: the pixel itself, or its exclusive-or with that of the base. */
  predicate Carries(p: Packet, word: pixel, whole: pixel, base: pixel) {
    word == if p.frameType.Keyframe? then whole else whole ^ base
  }

  lemma XorCarried(p: Packet, whole: Frame, base: Frame, i: nat)
    requires p.frameType.Delta? && |whole| == |base| && i < |whole|
    ensures Carries(p, FromBytes(ToBytes(XorFrames(whole, base)))[i], whole[i], base[i])
  {
    FromToBytes(XorFrames(whole, base));
  }

  /** The pixels a packet's payload decompresses to are those of its frame, or what makes them from its base. */
  ghost predicate PixelSent(lz: Codec<u8>, n: nat, frames: map<u32, Frame>, p: Packet, i: nat)
    requires i < n
  {
    var b := Decompress(lz, p.payload, 2 * n);
    && b.Some? && |b.value| == 2 * n && p.sequence in frames && i < |frames[p.sequence]|
    && (p.frameType.Delta? ==> p.base in frames && i < |frames[p.base]|)
    && Carries(p, FromBytes(b.value)[i], frames[p.sequence][i], if p.frameType.Delta? then frames[p.base][i] else 0)
  }

  lemma HonestPixels(lz: Codec<u8>, n: nat, frames: map<u32, Frame>, p: Packet, i: nat)
    requires Honest(lz, n, frames, p) && i < n
    ensures PixelSent(lz, n, frames, p, i)
  {
    if p.frameType.Keyframe? {
      FromToBytes(frames[p.sequence]);
    } else {
      XorCarried(p, frames[p.sequence], frames[p.base], i);
    }
  }

  /** Pixel by pixel, what every packet of every run decompresses to. */
  lemma SentPixels(lz: Codec<u8>, n: nat, actions: seq<Action>, end: System, p: Packet, i: nat)
    requires Faithful(lz) && Reaches(lz, n, Initial(n), actions, end) && p in end.sent && i < n
    ensures PixelSent(lz, n, end.frames, p, i)
  {
    ReachableIsSafe(lz, n, Initial(n), actions, end);
    HonestPixels(lz, n, end.frames, p, i);
  }

  /**
   * In every reachable state the decoder accepts exactly the keyframes and the differences whose base it
   * shows; a damaged payload is never accepted; a rejected packet leaves the decoder alone.
   */
  lemma AcceptanceIsExact(lz: Codec<u8>, n: nat, actions: seq<Action>, end: System, p: Packet)
    requires Faithful(lz) && Reaches(lz, n, Initial(n), actions, end)
    ensures p in end.sent ==>
              (Decode(lz, end.dec, p).status.Ok? <==>
               p.frameType.Keyframe? || (end.dec.last != NO_SEQ && end.dec.last == p.base))
    ensures Enabled(lz, n, end, DeliverDamaged(p)) ==> !Decode(lz, end.dec, p).status.Ok?
    ensures !Decode(lz, end.dec, p).status.Ok? ==>
              forall damaged :: Receive(lz, end, p, damaged).(log := end.log) == end
  {
    ReachableIsSafe(lz, n, Initial(n), actions, end);
    if p in end.sent {
      DecodeHonest(lz, n, end.frames, end.dec, p);
    }
  }

  // ---------------------------------------------------------------- which answer a packet gets

  /** The number of the last packet accepted since the start or the last reset. */
  function LastShown(log: seq<Entry>): Option<u32> {
    if log == [] then None else
    var n := |log| - 1;
    match log[n]
    case WasReset => None
    case Got(p, _, status) => if status.Ok? then Some(p.sequence) else LastShown(log[..n])
  }

  /** What every packet is answered, from what was shown before it: its kind comes before its contents. */
  predicate AnsweredBy(shown: Option<u32>, e: Entry) {
    e.Got? ==>
      var p := e.packet;
      && (e.status.NeedKeyframe? <==> p.frameType.Delta? && shown.None?)
      && (e.status.ReferenceMismatch? <==> p.frameType.Delta? && shown.Some? && shown.value != p.base)
      && (e.status.Corrupt? <==> e.damaged && (p.frameType.Keyframe? || shown == Some(p.base)))
      && (e.status.Ok? <==> !e.damaged && (p.frameType.Keyframe? || shown == Some(p.base)))
  }

  ghost predicate Logged(s: System) {
    && LastShown(s.log) == (if s.dec.last == NO_SEQ then None else Some(s.dec.last))
    && forall k :: 0 <= k < |s.log| ==> AnsweredBy(LastShown(s.log[..k]), s.log[k])
  }

  lemma EntryLogged(s: System, t: System, e: Entry)
    requires Logged(s) && t.log == s.log + [e] && AnsweredBy(LastShown(s.log), e)
    requires t.dec.last == match e case WasReset => NO_SEQ
                                    case Got(p, _, status) => if status.Ok? then p.sequence else s.dec.last
    requires e.Got? && e.status.Ok? ==> e.packet.sequence != NO_SEQ
    ensures Logged(t)
  {
    assert t.log[..|s.log|] == s.log;
    forall k | 0 <= k < |t.log|
      ensures AnsweredBy(LastShown(t.log[..k]), t.log[k])
    {
      if k < |s.log| {
        assert t.log[..k] == s.log[..k] && t.log[k] == s.log[k];
      }
    }
  }

  lemma StepKeepsLogged(lz: Codec<u8>, n: nat, s: System, a: Action)
    requires Faithful(lz) && Safe(lz, n, s) && Enabled(lz, n, s, a) && Logged(s)
    ensures Logged(Next(lz, s, a))
  {
    var t := Next(lz, s, a);
    match a
    case Deliver(index) =>
      var p := s.sent[index];
      assert p in s.sent;
      DecodeHonest(lz, n, s.frames, s.dec, p);
      HonestIsWhole(lz, n, s.frames, p);
      EntryLogged(s, t, Got(p, false, Decode(lz, s.dec, p).status));
    case DeliverDamaged(p) => EntryLogged(s, t, Got(p, true, Decode(lz, s.dec, p).status));
    case ResetDecoder => EntryLogged(s, t, WasReset);
    case _ =>
  }

  /** A packet that was sent has a payload of the right size. */
  lemma HonestIsWhole(lz: Codec<u8>, n: nat, frames: map<u32, Frame>, p: Packet)
    requires Honest(lz, n, frames, p)
    ensures var out := Decompress(lz, p.payload, 2 * n); out.Some? && |out.value| == 2 * n
  {
  }

  lemma {:induction false} ReachableIsLogged(lz: Codec<u8>, n: nat, s: System, actions: seq<Action>, end: System)
    requires Faithful(lz) && Safe(lz, n, s) && Logged(s) && Reaches(lz, n, s, actions, end)
    ensures Logged(end)
    decreases |actions|
  {
    if actions != [] {
      StepKeepsSafe(lz, n, s, actions[0]);
      StepKeepsLogged(lz, n, s, actions[0]);
      ReachableIsLogged(lz, n, Next(lz, s, actions[0]), actions[1..], end);
    }
  }

  /**
   * Every answer of every run: a difference gets NeedKeyframe exactly when nothing has been accepted since
   * the start or the last reset, ReferenceMismatch exactly when something has and its number is not the
   * base; anything else gets Corrupt exactly when it is damaged, and is accepted otherwise.
   */
  lemma AnswersAreExact(lz: Codec<u8>, n: nat, actions: seq<Action>, end: System, k: nat)
    requires Faithful(lz) && Reaches(lz, n, Initial(n), actions, end) && k < |end.log|
    ensures AnsweredBy(LastShown(end.log[..k]), end.log[k])
  {
    ReachableIsLogged(lz, n, Initial(n), actions, end);
  }

  // ---------------------------------------------------------------- what is sent

  /** Every difference names the packet sent just before it as its base; a keyframe names none. */
  predicate LinkedAt(sent: seq<Packet>, i: nat)
    requires i < |sent|
  {
    match sent[i].frameType
    case Keyframe => sent[i].base == NO_SEQ
    case Delta => i > 0 && sent[i].base == sent[i - 1].sequence
  }

  predicate Chained(s: System) {
    && s.enc.last == (if s.sent == [] then NO_SEQ else s.sent[|s.sent| - 1].sequence)
    && forall i :: 0 <= i < |s.sent| ==> s.sent[i].sequence != NO_SEQ && LinkedAt(s.sent, i)
  }

  lemma StepKeepsChain(lz: Codec<u8>, n: nat, s: System, a: Action)
    requires Chained(s) && |s.enc.reference| == n && Enabled(lz, n, s, a)
    ensures Chained(Next(lz, s, a))
  {
    var t := Next(lz, s, a);
    forall i | 0 <= i < |t.sent|
      ensures t.sent[i].sequence != NO_SEQ && LinkedAt(t.sent, i)
    {
      if i < |s.sent| {
        assert LinkedAt(s.sent, i);
      }
    }
  }

  lemma {:induction false} KeepsChain(lz: Codec<u8>, n: nat, s: System, actions: seq<Action>, end: System)
    requires Chained(s) && Reaches(lz, n, s, actions, end)
    ensures Chained(end)
    decreases |actions|
  {
    if actions != [] {
      StepKeepsChain(lz, n, s, actions[0]);
      KeepsChain(lz, n, Next(lz, s, actions[0]), actions[1..], end);
    }
  }

  /** In every run each difference sent is one to the packet sent just before it. */
  lemma SentChain(lz: Codec<u8>, n: nat, actions: seq<Action>, end: System, i: nat)
    requires Reaches(lz, n, Initial(n), actions, end) && i < |end.sent|
    ensures LinkedAt(end.sent, i)
  {
    KeepsChain(lz, n, Initial(n), actions, end);
  }

  /** The adaptive policy sends a difference exactly when it is strictly shorter; a tie goes to the keyframe. */
  lemma AdaptiveSendsShorter(lz: Codec<u8>, e: EncoderState, src: Frame, sequence: u32, cap: nat)
    requires Faithful(lz) && |src| == |e.reference| && Roomy(lz, 2 * |src|, cap) && !e.force && e.last != NO_SEQ
    ensures var (_, p) := Encode(lz, e, src, Adaptive, sequence, cap);
            var whole := Compress(lz, ToBytes(src), cap);
            var delta := Compress(lz, ToBytes(XorFrames(src, e.reference)), cap);
            && p.Some? && whole.Some? && delta.Some? && p.value.sequence == sequence
            && if |delta.value| < |whole.value| then p.value.frameType == Delta && p.value.payload == delta.value
               else p.value.frameType == Keyframe && p.value.payload == whole.value
  {
    CompressSucceeds(lz, ToBytes(src), cap);
    CompressSucceeds(lz, ToBytes(XorFrames(src, e.reference)), cap);
  }

  /** Under either policy: a failed call sends nothing, and what it changes is that a forced keyframe is forgotten. */
  lemma FailureForgetsForce(lz: Codec<u8>, e: EncoderState, src: Frame, mode: Mode, sequence: u32, cap: nat)
    requires |src| == |e.reference|
    ensures Encode(lz, e, src, mode, sequence, cap).1.None? ==>
              Encode(lz, e, src, mode, sequence, cap).0 == EncoderState(e.reference, e.last, false)
    ensures Compress(lz, ToBytes(src), cap).None? && (e.force || e.last == NO_SEQ) ==>
              Encode(lz, e, src, mode, sequence, cap).1.None?
  {
  }

  // ---------------------------------------------------------------- the adaptive policy is optimal

  /** A frame to encode, whether a keyframe was forced just before it, and its number. */
  datatype Input = Input(src: Frame, forced: bool, sequence: u32)

  predicate Frames(n: nat, inputs: seq<Input>) {
    forall i :: 0 <= i < |inputs| ==> |inputs[i].src| == n && inputs[i].sequence != NO_SEQ
  }

  function Forced(e: EncoderState, input: Input): EncoderState {
    e.(force := e.force || input.forced)
  }

  function PacketSize(p: Option<Packet>): nat {
    if p.Some? then |p.value.payload| else 0
  }

  /** Total payload bytes of a run under a policy. */
  function RunBytes(lz: Codec<u8>, n: nat, e: EncoderState, inputs: seq<Input>, mode: Mode, cap: nat): nat
    requires |e.reference| == n && Frames(n, inputs)
    decreases |inputs|
  {
    if inputs == [] then 0 else
    var (e', p) := Encode(lz, Forced(e, inputs[0]), inputs[0].src, mode, inputs[0].sequence, cap);
    PacketSize(p) + RunBytes(lz, n, e', inputs[1..], mode, cap)
  }

  /** Total payload bytes when each frame's type is chosen freely, wherever a difference is possible at all. */
  function ChosenBytes(lz: Codec<u8>, n: nat, e: EncoderState, inputs: seq<Input>, keys: seq<bool>, cap: nat): nat
    requires |e.reference| == n && Frames(n, inputs) && |keys| == |inputs|
    decreases |inputs|
  {
    if inputs == [] then 0 else
    var e0 := Forced(e, inputs[0]);
    var key := e0.force || e0.last == NO_SEQ || keys[0];
    var (e', p) := Send(lz, e0, inputs[0].src, if key then Keyframe else Delta, inputs[0].sequence, cap);
    PacketSize(p) + ChosenBytes(lz, n, e', inputs[1..], keys[1..], cap)
  }

  lemma SendSucceeds(lz: Codec<u8>, e: EncoderState, src: Frame, frameType: FrameType, sequence: u32, cap: nat)
    requires Faithful(lz) && |src| == |e.reference| && Roomy(lz, 2 * |src|, cap)
    ensures Send(lz, e, src, frameType, sequence, cap).0 == EncoderState(src, sequence, false)
    ensures Send(lz, e, src, frameType, sequence, cap).1.Some?
    ensures PacketSize(Send(lz, e, src, frameType, sequence, cap).1)
         == |Candidate(lz, if frameType.Keyframe? then src else Difference(e, src), cap).value|
  {
    CompressSucceeds(lz, ToBytes(if frameType.Keyframe? then src else Difference(e, src)), cap);
  }

  /** Whatever types are chosen, the encoder is in the same state after each frame, so no choice costs later. */
  lemma {:induction false} AdaptiveBeatsAnyChoice(
    lz: Codec<u8>, n: nat, e: EncoderState, inputs: seq<Input>, keys: seq<bool>, cap: nat)
    requires Faithful(lz) && |e.reference| == n && Frames(n, inputs) && |keys| == |inputs|
    requires Roomy(lz, 2 * n, cap)
    ensures RunBytes(lz, n, e, inputs, Adaptive, cap) <= ChosenBytes(lz, n, e, inputs, keys, cap)
    decreases |inputs|
  {
    if inputs != [] {
      var e0, src, number := Forced(e, inputs[0]), inputs[0].src, inputs[0].sequence;
      SendSucceeds(lz, e0, src, Keyframe, number, cap);
      SendSucceeds(lz, e0, src, Delta, number, cap);
      AdaptiveBeatsAnyChoice(lz, n, EncoderState(src, number, false), inputs[1..], keys[1..], cap);
    }
  }

  function FixedKeys(inputs: seq<Input>, interval: u32): (keys: seq<bool>)
    ensures |keys| == |inputs|
  {
    seq(|inputs|, i requires 0 <= i < |inputs| => interval != 0 && inputs[i].sequence % interval == 0)
  }

  lemma {:induction false} FixedIsAChoice(
    lz: Codec<u8>, n: nat, e: EncoderState, inputs: seq<Input>, interval: u32, cap: nat)
    requires |e.reference| == n && Frames(n, inputs)
    ensures RunBytes(lz, n, e, inputs, FixedInterval(interval), cap)
         == ChosenBytes(lz, n, e, inputs, FixedKeys(inputs, interval), cap)
    decreases |inputs|
  {
    if inputs != [] {
      var (e', _) := Encode(lz, Forced(e, inputs[0]), inputs[0].src, FixedInterval(interval), inputs[0].sequence, cap);
      FixedIsAChoice(lz, n, e', inputs[1..], interval, cap);
      assert FixedKeys(inputs, interval)[1..] == FixedKeys(inputs[1..], interval);
    }
  }

  /** An adaptive run never costs more bytes than any fixed-interval run over the same frames and forced keyframes. */
  lemma AdaptiveIsOptimal(lz: Codec<u8>, n: nat, e: EncoderState, inputs: seq<Input>, interval: u32, cap: nat)
    requires Faithful(lz) && |e.reference| == n && Frames(n, inputs) && Roomy(lz, 2 * n, cap)
    ensures RunBytes(lz, n, e, inputs, Adaptive, cap) <= RunBytes(lz, n, e, inputs, FixedInterval(interval), cap)
  {
    FixedIsAChoice(lz, n, e, inputs, interval, cap);
    AdaptiveBeatsAnyChoice(lz, n, e, inputs, FixedKeys(inputs, interval), cap);
  }

  // ---------------------------------------------------------------- resynchronisation

  /** What became of one frame that was encoded and delivered in order. */
  datatype Outcome = Outcome(frameType: FrameType, status: Status, shown: Frame)

  predicate Consecutive(inputs: seq<Input>) {
    forall i :: 0 <= i < |inputs| - 1 ==> inputs[i + 1].sequence == inputs[i].sequence + 1
  }

  function Transmit(lz: Codec<u8>, n: nat, e: EncoderState, d: DecoderState, inputs: seq<Input>, mode: Mode, cap: nat)
    : (outcomes: seq<Outcome>)
    requires |e.reference| == n && |d.reference| == n && Frames(n, inputs)
    ensures |outcomes| <= |inputs|
    decreases |inputs|
  {
    if inputs == [] then [] else
    match Encode(lz, Forced(e, inputs[0]), inputs[0].src, mode, inputs[0].sequence, cap)
    case (_, None) => []
    case (e', Some(p)) =>
      var r := Decode(lz, d, p);
      [Outcome(p.frameType, r.status, r.frame)] + Transmit(lz, n, e', r.state, inputs[1..], mode, cap)
  }

  predicate Exact(o: Outcome, input: Input) {
    o.status.Ok? && o.shown == input.src
  }

  lemma TypeSent(lz: Codec<u8>, e: EncoderState, src: Frame, mode: Mode, sequence: u32, cap: nat)
    requires Faithful(lz) && |src| == |e.reference| && Roomy(lz, 2 * |src|, cap)
    ensures var (e', p) := Encode(lz, e, src, mode, sequence, cap);
            && e' == EncoderState(src, sequence, false) && p.Some? && p.value.sequence == sequence
            && p.value.frameType == (if WantsKeyframe(lz, e, src, mode, sequence, cap) then Keyframe else Delta)
            && (p.value.frameType.Delta? ==> p.value.base == e.last && e.last != NO_SEQ)
  {
    SendSucceeds(lz, e, src, if WantsKeyframe(lz, e, src, mode, sequence, cap) then Keyframe else Delta, sequence, cap);
  }

  /** A keyframe, or a difference to what the decoder already shows, is shown exactly. */
  lemma DeliveredExactly(
    lz: Codec<u8>, e: EncoderState, d: DecoderState, src: Frame, mode: Mode, sequence: u32, cap: nat)
    requires Faithful(lz) && |src| == |e.reference| == |d.reference| && Roomy(lz, 2 * |src|, cap)
    requires WantsKeyframe(lz, e, src, mode, sequence, cap) || (d.reference == e.reference && d.last == e.last)
    ensures var (_, p) := Encode(lz, e, src, mode, sequence, cap);
            p.Some? && Decode(lz, d, p.value) == Decoding(Ok, DecoderState(src, sequence), src)
  {
    TypeSent(lz, e, src, mode, sequence, cap);
    CompressUndoneFor(lz, src, cap);
    CompressUndoneFor(lz, Difference(e, src), cap);
    FromToBytes(src);
    FromToBytes(Difference(e, src));
    XorFramesTwice(src, e.reference);
  }

  /** Once both ends agree, every frame delivered in order is shown exactly. */
  lemma {:induction false} InStepForever(
    lz: Codec<u8>, n: nat, e: EncoderState, d: DecoderState, inputs: seq<Input>, mode: Mode, cap: nat)
    requires Faithful(lz) && |e.reference| == n && Frames(n, inputs) && Roomy(lz, 2 * n, cap)
    requires d.reference == e.reference && d.last == e.last
    ensures var out := Transmit(lz, n, e, d, inputs, mode, cap);
            |out| == |inputs| && forall i :: 0 <= i < |out| ==> Exact(out[i], inputs[i])
    decreases |inputs|
  {
    if inputs != [] {
      var e0, src, number := Forced(e, inputs[0]), inputs[0].src, inputs[0].sequence;
      TypeSent(lz, e0, src, mode, number, cap);
      DeliveredExactly(lz, e0, d, src, mode, number, cap);
      InStepForever(lz, n, EncoderState(src, number, false), DecoderState(src, number), inputs[1..], mode, cap);
    }
  }

  /** One step of a transmission that has room. */
  lemma TransmitStep(
    lz: Codec<u8>, n: nat, e: EncoderState, d: DecoderState, inputs: seq<Input>, mode: Mode, cap: nat)
    returns (p: Packet, e': EncoderState, d': DecoderState)
    requires Faithful(lz) && |e.reference| == n && |d.reference| == n && Frames(n, inputs) && Roomy(lz, 2 * n, cap)
    requires inputs != []
    ensures e' == EncoderState(inputs[0].src, inputs[0].sequence, false) && d' == Decode(lz, d, p).state
    ensures Encode(lz, Forced(e, inputs[0]), inputs[0].src, mode, inputs[0].sequence, cap) == (e', Some(p))
    ensures p.frameType.Keyframe? <==>
            WantsKeyframe(lz, Forced(e, inputs[0]), inputs[0].src, mode, inputs[0].sequence, cap)
    ensures Transmit(lz, n, e, d, inputs, mode, cap)
         == [Outcome(p.frameType, Decode(lz, d, p).status, Decode(lz, d, p).frame)]
            + Transmit(lz, n, e', d', inputs[1..], mode, cap)
  {
    TypeSent(lz, Forced(e, inputs[0]), inputs[0].src, mode, inputs[0].sequence, cap);
    p := Encode(lz, Forced(e, inputs[0]), inputs[0].src, mode, inputs[0].sequence, cap).1.value;
    e' := EncoderState(inputs[0].src, inputs[0].sequence, false);
    d' := Decode(lz, d, p).state;
  }

  /** From any decoder state, a keyframe and everything after it are shown exactly. */
  lemma {:induction false} KeyframeResynchronises(
    lz: Codec<u8>, n: nat, e: EncoderState, d: DecoderState, inputs: seq<Input>, mode: Mode, cap: nat, k: nat)
    requires Faithful(lz) && |e.reference| == n && |d.reference| == n && Frames(n, inputs) && Roomy(lz, 2 * n, cap)
    requires k < |inputs|
    ensures var out := Transmit(lz, n, e, d, inputs, mode, cap);
            && |out| == |inputs|
            && (out[k].frameType.Keyframe? ==> forall i :: k <= i < |out| ==> Exact(out[i], inputs[i]))
    decreases |inputs|
  {
    var p, e', d' := TransmitStep(lz, n, e, d, inputs, mode, cap);
    var rest := Transmit(lz, n, e', d', inputs[1..], mode, cap);
    TransmitsAll(lz, n, e', d', inputs[1..], mode, cap);
    if k > 0 {
      KeyframeResynchronises(lz, n, e', d', inputs[1..], mode, cap, k - 1);
    } else if p.frameType.Keyframe? {
      DeliveredExactly(lz, Forced(e, inputs[0]), d, inputs[0].src, mode, inputs[0].sequence, cap);
      InStepForever(lz, n, e', d', inputs[1..], mode, cap);
    }
  }

  lemma {:induction false} TransmitsAll(
    lz: Codec<u8>, n: nat, e: EncoderState, d: DecoderState, inputs: seq<Input>, mode: Mode, cap: nat)
    requires Faithful(lz) && |e.reference| == n && |d.reference| == n && Frames(n, inputs) && Roomy(lz, 2 * n, cap)
    ensures |Transmit(lz, n, e, d, inputs, mode, cap)| == |inputs|
    ensures mode.FixedInterval? && mode.interval != 0 ==>
              forall i :: 0 <= i < |inputs| && inputs[i].sequence % mode.interval == 0 ==>
                Transmit(lz, n, e, d, inputs, mode, cap)[i].frameType.Keyframe?
    decreases |inputs|
  {
    if inputs != [] {
      var p, e', d' := TransmitStep(lz, n, e, d, inputs, mode, cap);
      TransmitsAll(lz, n, e', d', inputs[1..], mode, cap);
    }
  }

  /**
   * The fixed policy, exactly: a frame goes out whole if and only if a keyframe was forced, or it is the
   * first of all, or its number is a multiple of a nonzero interval.
   */
  lemma {:induction false} FixedPolicyIsExact(
    lz: Codec<u8>, n: nat, e: EncoderState, d: DecoderState, inputs: seq<Input>, interval: u32, cap: nat, k: nat)
    requires Faithful(lz) && |e.reference| == n && |d.reference| == n && Frames(n, inputs) && Roomy(lz, 2 * n, cap)
    requires k < |inputs|
    ensures var out := Transmit(lz, n, e, d, inputs, FixedInterval(interval), cap);
            && |out| == |inputs|
            && (out[k].frameType.Keyframe? <==>
                || inputs[k].forced || (k == 0 && (e.force || e.last == NO_SEQ))
                || (interval != 0 && inputs[k].sequence % interval == 0))
    decreases k
  {
    var mode := FixedInterval(interval);
    var p, e', d' := TransmitStep(lz, n, e, d, inputs, mode, cap);
    TransmitsAll(lz, n, e, d, inputs, mode, cap);
    if k > 0 {
      FixedPolicyIsExact(lz, n, e', d', inputs[1..], interval, cap, k - 1);
      assert Transmit(lz, n, e, d, inputs, mode, cap)[k] == Transmit(lz, n, e', d', inputs[1..], mode, cap)[k - 1];
    }
  }

  lemma {:induction false} NumberAt(inputs: seq<Input>, k: nat)
    requires Consecutive(inputs) && k < |inputs|
    ensures inputs[k].sequence == inputs[0].sequence + k
  {
    if k > 0 {
      NumberAt(inputs, k - 1);
    }
  }

  /** Among N consecutive numbers one is a multiple of N. */
  lemma MultipleWithin(first: nat, n: nat) returns (k: nat)
    requires n > 0
    ensures k < n && (first + k) % n == 0
  {
    var r := first % n;
    k := if r == 0 then 0 else n - r;
    if r != 0 {
      assert n * (first / n + 1) == n * (first / n) + n;
      DivModUnique(first + k, n, first / n + 1, 0);
    }
  }

  /**
   * Self-stabilisation: whatever state the ends are in, a fixed interval N brings a keyframe among the
   * first N consecutive frames; at most the N - 1 before it can be rejected, and from it on every frame
   * is shown exactly.
   */
  lemma SelfStabilises(
    lz: Codec<u8>, n: nat, e: EncoderState, d: DecoderState, inputs: seq<Input>, interval: u32, cap: nat)
    returns (k: nat)
    requires Faithful(lz) && |e.reference| == n && |d.reference| == n && Frames(n, inputs) && Roomy(lz, 2 * n, cap)
    requires interval > 0 && Consecutive(inputs) && |inputs| >= interval
    ensures k <= interval - 1
    ensures var out := Transmit(lz, n, e, d, inputs, FixedInterval(interval), cap);
            && |out| == |inputs| && out[k].frameType.Keyframe?
            && forall i :: k <= i < |out| ==> Exact(out[i], inputs[i])
  {
    var mode := FixedInterval(interval);
    k := MultipleWithin(inputs[0].sequence, interval);
    NumberAt(inputs, k);
    TransmitsAll(lz, n, e, d, inputs, mode, cap);
    KeyframeResynchronises(lz, n, e, d, inputs, mode, cap, k);
  }

  /** A forced keyframe resynchronises on the very next frame, under either policy. */
  lemma ForcedKeyframeResynchronises(
    lz: Codec<u8>, n: nat, e: EncoderState, d: DecoderState, inputs: seq<Input>, mode: Mode, cap: nat)
    requires Faithful(lz) && |e.reference| == n && |d.reference| == n && Frames(n, inputs) && Roomy(lz, 2 * n, cap)
    requires inputs != [] && inputs[0].forced
    ensures var out := Transmit(lz, n, e, d, inputs, mode, cap);
            |out| == |inputs| && forall i :: 0 <= i < |out| ==> Exact(out[i], inputs[i])
  {
    TypeSent(lz, Forced(e, inputs[0]), inputs[0].src, mode, inputs[0].sequence, cap);
    KeyframeResynchronises(lz, n, e, d, inputs, mode, cap, 0);
  }
}
