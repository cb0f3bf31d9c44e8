/**
 * The transfer engine: a frame goes to the device as SET_BUFFER requests, each followed by one bulk
 * payload of complete rows, compressed when that is smaller.
 *
 * The host controller and the device answer as they like: a `Host` is any function of everything that
 * went over the wire so far. What the driver sends is pinned down by an automaton over the wire events
 * (`Step`); the methods, which have the loops of the C code, are proved to produce only its words. The
 * lemmas are about those words: coverage of the frame, retry bounds, and what a device that applies them
 * holds in the end.
 */
module FrameTransfer {
  import opened Arith
  import opened Bytes
  import opened FrameLayout
  import opened Lz4

  const BUSY_RETRIES: nat := 100
  const EAGAIN_RETRIES: nat := 100
  const BULK_CHUNK_SIZE: nat := 64 * 1024
  const COMPRESSION_LZ4: byte := 1

  // ---------------------------------------------------------------- the wire

  datatype Request = Request(
    x: u32, y: u32, width: u32, height: u32, length: u32, compression: byte, compressedLength: u32)

  /** `reached`: a bulk transfer that failed may still have reached the device in full. */
  datatype Event =
    | SetBuffer(request: Request, result: int)
    | Bulk(payload: seq<byte>, result: int, actual: int, reached: bool)

  datatype BulkResult = BulkResult(result: int, actual: int, reached: bool)

  datatype Host = Host(
    setBuffer: (seq<Event>, Request) -> int,
    bulkOut: (seq<Event>, seq<byte>) -> BulkResult,
    gone: seq<Event> -> bool)

  /** The host saw the whole payload leave. */
  predicate Completed(e: Event) {
    e.Bulk? && e.result == 0 && e.actual == |e.payload|
  }

  // ---------------------------------------------------------------- what is to be sent

  datatype Plan = Plan(
    lz: Codec<byte>, width: u32, height: u32, bpp: nat, line: nat, maxRows: nat, frame: seq<byte>,
    compress: bool, busyRetries: nat)

  predicate Sound(p: Plan) {
    p.line == p.width * p.bpp > 0 && p.height > 0 && p.maxRows > 0 && |p.frame| == p.line * p.height <= U32_MAX
  }

  function Rows(p: Plan, row: nat): (n: nat)
    requires Sound(p) && row < p.height
    ensures 0 < n && row + n <= p.height
  {
    Min(p.height - row, p.maxRows)
  }

  function Slice(p: Plan, from: nat, to: nat): (s: seq<byte>)
    requires Sound(p) && from <= to <= p.height
    ensures |s| == p.line * to - p.line * from <= |p.frame|
  {
    ScaleMonotone(p.line, 0, from);
    ScaleMonotone(p.line, from, to);
    ScaleMonotone(p.line, to, p.height);
    p.frame[p.line * from..p.line * to]
  }

  function Source(p: Plan, row: nat): (s: seq<byte>)
    requires Sound(p) && row < p.height
    ensures 0 < |s| == p.line * Rows(p, row) <= |p.frame|
  {
    var n := Rows(p, row);
    assert p.line * (row + n) == p.line * row + p.line * n;
    ScaleUp(p.line, n);
    Slice(p, row, row + n)
  }

  /** The limited compressor's output, when it is worth sending. */
  function Squeezed(lz: Codec<byte>, compress: bool, source: seq<byte>): (r: Option<seq<byte>>)
    ensures r.Some? ==> 0 < |r.value| < |source|
  {
    if !compress then None else
    match lz.compress(source, |source|)
    case None => None
    case Some(c) => if 0 < |c| < |source| then Some(c) else None
  }

  function PayloadOf(lz: Codec<byte>, compress: bool, source: seq<byte>): seq<byte> {
    match Squeezed(lz, compress, source) case Some(c) => c case None => source
  }

  function RectPayload(p: Plan, row: nat): seq<byte>
    requires Sound(p) && row < p.height
  {
    PayloadOf(p.lz, p.compress, Source(p, row))
  }

  function RectRequest(p: Plan, row: nat): Request
    requires Sound(p) && row < p.height
  {
    var source := Source(p, row);
    match Squeezed(p.lz, p.compress, source)
    case Some(c) => Request(0, row, p.width, Rows(p, row), |source|, COMPRESSION_LZ4, |c|)
    case None => Request(0, row, p.width, Rows(p, row), |source|, 0, 0)
  }

  /** The payload is never longer than the rows or their compression, and the request says which it is. */
  lemma PayloadIsShortest(p: Plan, row: nat)
    requires Sound(p) && row < p.height
    ensures var source, payload, request := Source(p, row), RectPayload(p, row), RectRequest(p, row);
            var packed := if p.compress then p.lz.compress(source, |source|) else None;
            && 0 < |payload| <= |source| == request.length
            && (packed.Some? && packed.value != [] ==> |payload| <= |packed.value|)
            && (if request.compression == 0 then payload == source && request.compressedLength == 0
                else request.compression == 1 && packed == Some(payload) && request.compressedLength == |payload|
                     && |payload| < |source|)
  {
  }

  // ---------------------------------------------------------------- the words the driver may send

  datatype Phase = Asking(busy: nat) | Sending(again: nat) | Stopped(error: int)
  datatype State = State(row: nat, rects: nat, phase: Phase)

  const START: State := State(0, 0, Asking(0))

  function AfterSetBuffer(p: Plan, row: nat, rects: nat, busy: nat, result: int): State {
    if result == 0 then State(row, rects, Sending(0))
    else if result == -EBUSY && busy < p.busyRetries then State(row, rects, Asking(busy + 1))
    else State(row, rects, Stopped(result))
  }

  /** The last bulk attempt for a rectangle decides. */
  function Settled(p: Plan, row: nat, rects: nat, length: nat, result: int, actual: int): State
    requires Sound(p) && row < p.height
  {
    if result != 0 then State(row, rects, Stopped(result))
    else if actual != length then State(row, rects, Stopped(-EIO))
    else State(row + Rows(p, row), rects + 1, Asking(0))
  }

  function AfterBulk(p: Plan, row: nat, rects: nat, again: nat, e: Event): State
    requires Sound(p) && row < p.height && e.Bulk?
  {
    if e.result == -EAGAIN && again < EAGAIN_RETRIES then State(row, rects, Sending(again + 1))
    else Settled(p, row, rects, |e.payload|, e.result, e.actual)
  }

  function Step(p: Plan, s: State, e: Event): Option<State>
    requires Sound(p)
  {
    if s.row >= p.height then None else
    match s.phase
    case Asking(busy) =>
      if e.SetBuffer? && e.request == RectRequest(p, s.row) then Some(AfterSetBuffer(p, s.row, s.rects, busy, e.result))
      else None
    case Sending(again) =>
      if e.Bulk? && e.payload == RectPayload(p, s.row) then Some(AfterBulk(p, s.row, s.rects, again, e))
      else None
    case Stopped(_) => None
  }

  /** The state after the events; None when the driver would not have sent them. */
  function Run(p: Plan, events: seq<Event>): Option<State>
    requires Sound(p)
  {
    if events == [] then Some(START) else
    match Run(p, events[..|events| - 1])
    case None => None
    case Some(s) => Step(p, s, events[|events| - 1])
  }

  lemma RunStep(p: Plan, events: seq<Event>, e: Event)
    requires Sound(p) && Run(p, events).Some?
    ensures Run(p, events + [e]) == Step(p, Run(p, events).value, e)
  {
    assert (events + [e])[..|events|] == events;
  }

  lemma {:induction false} RunPrefix(p: Plan, events: seq<Event>, n: nat)
    requires Sound(p) && n <= |events| && Run(p, events).Some?
    ensures Run(p, events[..n]).Some?
  {
    if n < |events| {
      RunPrefix(p, events[..|events| - 1], n);
      assert events[..|events| - 1][..n] == events[..n];
    } else {
      assert events[..n] == events;
    }
  }

  /** How a call that got as far as sending may end. */
  predicate Outcome(p: Plan, events: seq<Event>, gone: bool, ret: int, rectangles: nat)
    requires Sound(p)
  {
    match Run(p, events)
    case None => false
    case Some(s) =>
      && s.rects == rectangles
      && if ret == 0 then s.row == p.height
         else s.phase == Stopped(ret) || (ret == -ENODEV && gone && s.phase == Asking(0) && s.row < p.height)
  }

  // ---------------------------------------------------------------- the answers on the wire

  /** How many SET_BUFFER requests in a row end the events. */
  function TrailingAsks(events: seq<Event>): nat {
    if events == [] || !events[|events| - 1].SetBuffer? then 0 else 1 + TrailingAsks(events[..|events| - 1])
  }

  /** How many bulk transfers in a row end the events. */
  function TrailingBulks(events: seq<Event>): nat {
    if events == [] || !events[|events| - 1].Bulk? then 0 else 1 + TrailingBulks(events[..|events| - 1])
  }

  /** What the last answer amounts to: the host's error, -EIO for a short payload, or no error. */
  function WireError(events: seq<Event>): int {
    if events == [] then 0 else
    var last := events[|events| - 1];
    if last.result == 0 && last.Bulk? && last.actual != |last.payload| then -EIO else last.result
  }

  /**
   * The return value read off the wire: it is the last answer's error, or -ENODEV of a device gone after a
   * complete rectangle; an answer that asks for another attempt is final only after that many attempts.
   */
  predicate Explained(events: seq<Event>, gone: bool, busyAttempts: nat, ret: int) {
    && (ret == WireError(events) || (ret == -ENODEV && gone && WireError(events) == 0))
    && (events != [] && events[|events| - 1].SetBuffer? && events[|events| - 1].result == -EBUSY ==>
          TrailingAsks(events) == busyAttempts)
    && (events != [] && events[|events| - 1].Bulk? && events[|events| - 1].result == -EAGAIN ==>
          TrailingBulks(events) == 101)
  }

  /** Attempts until the answer is another than `again`, at most 101 of them. */
  predicate Persistent(attempts: seq<Event>, again: int) {
    && 0 < |attempts| <= 101
    && (forall i :: 0 <= i < |attempts| - 1 ==> attempts[i].result == again)
    && (attempts[|attempts| - 1].result == again ==> |attempts| == 101)
  }

  /** The first event from `start` on may begin a rectangle, the others do not. */
  predicate OneRectangle(wire: seq<Event>, start: nat) {
    forall i :: start < i < |wire| && wire[i].SetBuffer? ==> wire[i - 1].SetBuffer?
  }

  /** Event i is the first of a rectangle. */
  predicate Begins(wire: seq<Event>, start: nat, i: nat)
    requires start <= i < |wire|
  {
    wire[i].SetBuffer? && (i == start || wire[i - 1].Bulk?)
  }

  /** No rectangle is begun once the device is gone. */
  predicate HeedsDisconnect(host: Host, wire: seq<Event>, start: nat) {
    forall i :: start <= i < |wire| && Begins(wire, start, i) ==> !host.gone(wire[..i])
  }

  lemma HeedsMore(host: Host, before: seq<Event>, after: seq<Event>, start: nat)
    requires start <= |before| <= |after| && after[..|before|] == before && !host.gone(before)
    requires HeedsDisconnect(host, before, start) && OneRectangle(after, |before|)
    ensures HeedsDisconnect(host, after, start)
  {
    forall i | start <= i < |after| && Begins(after, start, i)
      ensures !host.gone(after[..i])
    {
      if i < |before| {
        assert before[i] == after[i] && (i > start ==> before[i - 1] == after[i - 1]);
        assert before[..i] == after[..i];
        assert Begins(before, start, i);
      } else {
        assert i == |before|;
      }
    }
  }

  // ---------------------------------------------------------------- the driver

  datatype Planned = Planned(plan: Plan) | Refused(error: int)

  /** The checks before the loop, and what the loop is to send. `memory` starts at the frame's first byte. */
  function PlanOf(
    lz: Codec<byte>, maxBufferSize: nat, maxSourceLength: nat, compress: bool, fb: Framebuffer, memory: seq<byte>)
    : Planned
    requires LengthOf(fb) <= |memory|
  {
    if maxBufferSize == 0 then Refused(-EINVAL) else
    match FormatFrameLayout(fb.width, fb.height, fb.format)
    case Rejected(e) => Refused(e)
    case Layout(line, length) =>
      if line > maxSourceLength then Refused(-E2BIG)
      else if line == 0 || MaxRows(maxSourceLength, line, length) == 0 then Refused(-EINVAL)
      else Planned(Plan(lz, fb.width, fb.height, BytesPerPixel(fb.format), line, MaxRows(maxSourceLength, line, length),
                        memory[..length], compress, BUSY_RETRIES))
  }

  /** Which frames are refused, with which error, and what the plan of any other is: as many rows at a time as fit. */
  lemma PlanIsExact(
    lz: Codec<byte>, maxBufferSize: nat, maxSourceLength: nat, compress: bool, fb: Framebuffer, memory: seq<byte>)
    requires LengthOf(fb) <= |memory|
    ensures var line, n := LineBytes(fb.width, fb.format), FrameBytes(fb.width, fb.height, fb.format);
            match PlanOf(lz, maxBufferSize, maxSourceLength, compress, fb, memory)
            case Refused(e) =>
              if maxBufferSize == 0 || n == 0 then e == -EINVAL
              else if n > U32_MAX then e == -EOVERFLOW
              else e == -E2BIG && line > maxSourceLength
            case Planned(p) =>
              && maxBufferSize > 0 && 0 < n <= U32_MAX && n <= |memory| && line <= maxSourceLength
              && p.lz == lz && p.width == fb.width && p.height == fb.height && p.line == line
              && p.frame == memory[..n] && p.compress == compress && p.busyRetries == 100
              && 0 < p.maxRows <= p.height && line * p.maxRows <= maxSourceLength
              && (p.maxRows == p.height || line * (p.maxRows + 1) > maxSourceLength)
  {
    LayoutIsExact(fb.width, fb.height, fb.format);
    var line, n := LineBytes(fb.width, fb.format), FrameBytes(fb.width, fb.height, fb.format);
    if 0 < n <= U32_MAX && line <= maxSourceLength {
      MaxRowsBounds(maxSourceLength, line, fb.height);
      MaxRowsIsMost(maxSourceLength, line, fb.height);
    }
  }

  /** A plan is sound, and no rectangle of it exceeds the budget. */
  lemma PlanIsSound(
    lz: Codec<byte>, maxBufferSize: nat, maxSourceLength: nat, compress: bool, fb: Framebuffer, memory: seq<byte>)
    requires LengthOf(fb) <= |memory| && PlanOf(lz, maxBufferSize, maxSourceLength, compress, fb, memory).Planned?
    ensures var p := PlanOf(lz, maxBufferSize, maxSourceLength, compress, fb, memory).plan;
            Sound(p) && forall row :: 0 <= row < p.height ==> |Source(p, row)| <= maxSourceLength
  {
    var p := PlanOf(lz, maxBufferSize, maxSourceLength, compress, fb, memory).plan;
    LayoutIsExact(fb.width, fb.height, fb.format);
    MaxRowsBounds(maxSourceLength, p.line, p.height);
    forall row | 0 <= row < p.height
      ensures |Source(p, row)| <= maxSourceLength
    {
      assert p.line * Rows(p, row) <= maxSourceLength;
    }
  }

  class GudDevice {
    var maxBufferSize: u32
    var maxSourceLength: nat
    var bulkBuffer: array<byte>
    var lz4: bool
    // Everything that went over the wire; the host answers from it.
    var wire: seq<Event>

    ghost predicate Valid()
      reads this
    {
      bulkBuffer.Length == maxSourceLength
    }

    /** gud_xdisp_buffers_init; its error returns are in BuffersInit. */
    constructor (maxBufferSize: u32, maxWidth: u32, maxHeight: u32, lz4: bool)
      requires BuffersInit(maxBufferSize, maxWidth, maxHeight).Layout?
      ensures Valid() && fresh(bulkBuffer) && wire == []
      ensures this.maxBufferSize == maxBufferSize && this.lz4 == lz4
      ensures maxSourceLength == BuffersInit(maxBufferSize, maxWidth, maxHeight).length
    {
      var budget := BuffersInit(maxBufferSize, maxWidth, maxHeight).length;
      this.maxBufferSize, this.lz4, wire := maxBufferSize, lz4, [];
      maxSourceLength := budget;
      bulkBuffer := new byte[budget](_ => 0);
    }

    method Set(host: Host, request: Request) returns (ret: int)
      modifies this`wire
      ensures ret == host.setBuffer(old(wire), request) && wire == old(wire) + [SetBuffer(request, ret)]
    {
      ret := host.setBuffer(wire, request);
      wire := wire + [SetBuffer(request, ret)];
    }

    method BulkWrite(host: Host, buffer: array<byte>, length: nat) returns (ret: int, actual: int)
      requires length <= buffer.Length
      modifies this`wire
      ensures var r := host.bulkOut(old(wire), buffer[..length]);
              && ret == r.result && actual == r.actual
              && wire == old(wire) + [Bulk(buffer[..length], ret, actual, r.reached)]
    {
      var r := host.bulkOut(wire, buffer[..length]);
      ret, actual := r.result, r.actual;
      wire := wire + [Bulk(buffer[..length], ret, actual, r.reached)];
    }

    /** The events since `start` leave the automaton in state s. */
    ghost predicate At(p: Plan, start: nat, s: State)
      reads this`wire
    {
      Sound(p) && start <= |wire| && Run(p, wire[start..]) == Some(s)
    }

    /** The SET_BUFFER loop: again only after an explicit busy answer, a bounded number of times. */
    method Ask(host: Host, request: Request, ghost p: Plan, ghost start: nat, ghost row: nat, ghost rects: nat)
      returns (ret: int)
      requires At(p, start, State(row, rects, Asking(0))) && row < p.height && p.busyRetries == BUSY_RETRIES
      requires request == RectRequest(p, row)
      modifies this`wire
      ensures |old(wire)| <= |wire| && wire[..|old(wire)|] == old(wire)
      ensures At(p, start, State(row, rects, if ret == 0 then Sending(0) else Stopped(ret)))
      ensures Persistent(wire[|old(wire)|..], -EBUSY) && wire[|wire| - 1].result == ret
      ensures forall i :: |old(wire)| <= i < |wire| ==> wire[i].SetBuffer?
    {
      var retries := 0;
      while true
        invariant |old(wire)| <= |wire| && wire[..|old(wire)|] == old(wire)
        invariant retries <= BUSY_RETRIES && At(p, start, State(row, rects, Asking(retries)))
        invariant |wire| == |old(wire)| + retries
        invariant forall i :: |old(wire)| <= i < |wire| ==> wire[i].SetBuffer? && wire[i].result == -EBUSY
        decreases BUSY_RETRIES - retries
      {
        label before:
        ret := Set(host, request);
        Asked(p, start, old@before(wire), wire, row, rects, retries);
        if !(ret == -EBUSY && retries < BUSY_RETRIES) {
          break;
        }
        retries := retries + 1;
      }
    }

    /** The bulk loop: again only after -EAGAIN, a bounded number of times. */
    method Push(
      host: Host, buffer: array<byte>, length: nat, ghost p: Plan, ghost start: nat, ghost row: nat, ghost rects: nat)
      returns (ret: int, actual: int)
      requires length <= buffer.Length
      requires At(p, start, State(row, rects, Sending(0))) && row < p.height
      requires buffer[..length] == RectPayload(p, row)
      modifies this`wire
      ensures |old(wire)| <= |wire| && wire[..|old(wire)|] == old(wire)
      ensures At(p, start, Settled(p, row, rects, length, ret, actual))
      ensures Persistent(wire[|old(wire)|..], -EAGAIN) && wire[|wire| - 1].result == ret
      ensures forall i :: |old(wire)| <= i < |wire| ==> wire[i].Bulk?
    {
      var retries := 0;
      while true
        invariant |old(wire)| <= |wire| && wire[..|old(wire)|] == old(wire)
        invariant retries <= EAGAIN_RETRIES && At(p, start, State(row, rects, Sending(retries)))
        invariant |wire| == |old(wire)| + retries
        invariant forall i :: |old(wire)| <= i < |wire| ==> wire[i].Bulk? && wire[i].result == -EAGAIN
        decreases EAGAIN_RETRIES - retries
      {
        label before:
        ret, actual := BulkWrite(host, buffer, length);
        Pushed(p, start, old@before(wire), wire, row, rects, retries);
        if ret != -EAGAIN || retries == EAGAIN_RETRIES {
          break;
        }
        retries := retries + 1;
      }
    }

    method Prepare(lz: Codec<byte>, source: seq<byte>) returns (payload: seq<byte>, compressed: bool)
      ensures payload == PayloadOf(lz, lz4, source) && compressed == Squeezed(lz, lz4, source).Some?
      ensures 0 < |source| ==> 0 < |payload| <= |source|
    {
      payload, compressed := source, false;
      if lz4 {
        var scratch := lz.compress(source, |source|);
        if scratch.Some? && 0 < |scratch.value| < |source| {
          payload, compressed := scratch.value, true;
        }
      }
    }

    static method Load(buffer: array<byte>, payload: seq<byte>)
      requires |payload| <= buffer.Length
      modifies buffer
      ensures buffer[..|payload|] == payload
    {
      for i := 0 to |payload|
        invariant buffer[..i] == payload[..i]
      {
        buffer[i] := payload[i];
      }
    }

    /** The request, and once it is accepted the payload in the bulk buffer. */
    method Exchange(
      host: Host, request: Request, length: nat, ghost p: Plan, ghost start: nat, ghost row: nat, ghost rects: nat)
      returns (ret: int)
      requires length <= bulkBuffer.Length
      requires At(p, start, State(row, rects, Asking(0))) && row < p.height && p.busyRetries == BUSY_RETRIES
      requires request == RectRequest(p, row) && bulkBuffer[..length] == RectPayload(p, row)
      modifies this`wire
      ensures |old(wire)| <= |wire| && wire[..|old(wire)|] == old(wire)
      ensures At(p, start, if ret == 0 then State(row + Rows(p, row), rects + 1, Asking(0))
                           else State(row, rects, Stopped(ret)))
      ensures OneRectangle(wire, |old(wire)|)
    {
      ret := Ask(host, request, p, start, row, rects);
      if ret == 0 {
        var actual;
        ret, actual := Push(host, bulkBuffer, length, p, start, row, rects);
        if ret == 0 && actual != length {
          ret := -EIO;
        }
      }
    }

    /** One turn of the loop, from the compression to the bulk payload. */
    method SendRectangle(
      host: Host, lz: Codec<byte>, request: Request, source: seq<byte>, ghost p: Plan, ghost start: nat, ghost row: nat,
      ghost rects: nat) returns (ret: int)
      requires Valid() && At(p, start, State(row, rects, Asking(0))) && row < p.height
      requires p.lz == lz && p.compress == lz4 && p.busyRetries == BUSY_RETRIES
      requires source == Source(p, row) && |source| <= maxSourceLength
      requires request == Request(0, row, p.width, Rows(p, row), |source|, 0, 0)
      modifies this`wire, bulkBuffer
      ensures |old(wire)| <= |wire| && wire[..|old(wire)|] == old(wire)
      ensures At(p, start, if ret == 0 then State(row + Rows(p, row), rects + 1, Asking(0))
                           else State(row, rects, Stopped(ret)))
      ensures OneRectangle(wire, |old(wire)|)
    {
      var payload, compressed := Prepare(lz, source);
      if request.height == 0 || |source| == 0 || |payload| == 0
        || |source| > maxSourceLength || |payload| > bulkBuffer.Length {
        // Never taken: by the contract an error always shows on the wire.
        ret := -EOVERFLOW;
      } else {
        Load(bulkBuffer, payload);
        var filled := request;
        if compressed {
          filled := request.(compression := COMPRESSION_LZ4, compressedLength := |payload|);
        }
        ret := Exchange(host, filled, |payload|, p, start, row, rects);
      }
    }

    /** One turn of the loop: as many complete rows from the offset on as fit. */
    method SendRows(
      host: Host, lz: Codec<byte>, width: u32, vaddr: array<byte>, length: nat, bytesPerLine: nat, maxRows: nat,
      offset: nat, ghost p: Plan, ghost start: nat, ghost row: nat, ghost rects: nat)
      returns (ret: int, sourceLength: nat, ghost next: nat)
      requires Valid() && vaddr != bulkBuffer && length <= vaddr.Length && Sound(p)
      requires p.frame == vaddr[..length] && p.line == bytesPerLine && p.maxRows == maxRows && p.width == width
      requires p.lz == lz && p.compress == lz4 && p.busyRetries == BUSY_RETRIES
      requires row < p.height && offset == p.line * row && |Source(p, row)| <= maxSourceLength
      requires At(p, start, State(row, rects, Asking(0)))
      modifies this`wire, bulkBuffer
      ensures |old(wire)| <= |wire| && wire[..|old(wire)|] == old(wire)
      ensures row < next == row + Rows(p, row) <= p.height && offset + sourceLength == p.line * next
      ensures offset + sourceLength >= length <==> next == p.height
      ensures At(p, start, if ret == 0 then State(next, rects + 1, Asking(0)) else State(row, rects, Stopped(ret)))
      ensures OneRectangle(wire, |old(wire)|)
    {
      next := row + Rows(p, row);
      Turn(p, row, offset);
      RowsDone(p, next);
      var remainingRows := (length - offset) / bytesPerLine;
      var rows := Min(remainingRows, maxRows);
      sourceLength := rows * bytesPerLine;
      var source := vaddr[..length][offset..offset + sourceLength];
      var request := Request(0, offset / bytesPerLine, width, rows, sourceLength, 0, 0);
      ret := SendRectangle(host, lz, request, source, p, start, row, rects);
    }

    /** The loop over the frame. */
    method SendFrame(
      host: Host, lz: Codec<byte>, width: u32, vaddr: array<byte>, length: nat, bytesPerLine: nat, maxRows: nat,
      ghost p: Plan) returns (ret: int, rectangles: nat)
      requires Valid() && vaddr != bulkBuffer && length <= vaddr.Length && Sound(p)
      requires p.frame == vaddr[..length] && p.line == bytesPerLine && p.maxRows == maxRows && p.width == width
      requires p.lz == lz && p.compress == lz4 && p.busyRetries == BUSY_RETRIES
      requires forall row :: 0 <= row < p.height ==> |Source(p, row)| <= maxSourceLength
      modifies this`wire, bulkBuffer
      ensures |old(wire)| <= |wire| && wire[..|old(wire)|] == old(wire)
      ensures Outcome(p, wire[|old(wire)|..], host.gone(wire), ret, rectangles)
      ensures HeedsDisconnect(host, wire, |old(wire)|)
    {
      ghost var start, row := |wire|, 0;
      var offset := 0;
      ret, rectangles := 0, 0;
      RowsDone(p, row);
      while offset < length
        invariant start <= |wire| && wire[..start] == old(wire) && p.frame == vaddr[..length]
        invariant row <= p.height && offset == p.line * row && (offset >= length <==> row == p.height)
        invariant ret == 0 && At(p, start, State(row, rectangles, Asking(0)))
        invariant HeedsDisconnect(host, wire, start)
        decreases p.height - row
      {
        if host.gone(wire) {
          ret := -ENODEV;
          break;
        }
        var sourceLength;
        ghost var next, before := 0, wire;
        ret, sourceLength, next :=
          SendRows(host, lz, width, vaddr, length, bytesPerLine, maxRows, offset, p, start, row, rectangles);
        HeedsMore(host, before, wire, start);
        if ret != 0 {
          break;
        }
        offset := offset + sourceLength;
        rectangles := rectangles + 1;
        row := next;
      }
    }

    /** gud_pipe_transfer_xdisp_buffer. */
    method TransferBuffer(host: Host, lz: Codec<byte>, fb: Framebuffer, vaddr: array<byte>)
      returns (ret: int, rectangles: nat)
      requires Valid() && vaddr != bulkBuffer && LengthOf(fb) <= vaddr.Length
      modifies this`wire, bulkBuffer
      ensures |old(wire)| <= |wire| && wire[..|old(wire)|] == old(wire)
      ensures match PlanOf(lz, maxBufferSize, maxSourceLength, lz4, fb, old(vaddr[..]))
              case Refused(e) => ret == e && wire == old(wire) && bulkBuffer[..] == old(bulkBuffer[..])
              case Planned(p) =>
                && Sound(p) && Outcome(p, wire[|old(wire)|..], host.gone(wire), ret, rectangles)
                && Explained(wire[|old(wire)|..], host.gone(wire), 101, ret)
      ensures HeedsDisconnect(host, wire, |old(wire)|)
    {
      if maxBufferSize == 0 {
        return -EINVAL, 0;
      }
      var layout := FormatFrameLayout(fb.width, fb.height, fb.format);
      if layout.Rejected? {
        return layout.error, 0;
      }
      var bytesPerLine, length := layout.bytesPerLine, layout.length;
      if bytesPerLine > maxSourceLength {
        return -E2BIG, 0;
      }
      LayoutIsExact(fb.width, fb.height, fb.format);
      var maxRows := MaxRows(maxSourceLength, bytesPerLine, length);
      if maxRows == 0 {
        return -EINVAL, 0;
      }
      ghost var planned := PlanOf(lz, maxBufferSize, maxSourceLength, lz4, fb, vaddr[..]);
      assert planned.Planned?;
      PlanIsSound(lz, maxBufferSize, maxSourceLength, lz4, fb, vaddr[..]);
      ret, rectangles := SendFrame(host, lz, fb.width, vaddr, length, bytesPerLine, maxRows, planned.plan);
      OutcomeIsExplained(planned.plan, wire[|old(wire)|..], host.gone(wire), ret, rectangles);
    }

    /** Raw rows, with one SET_BUFFER attempt. */
    method SendRaw(
      host: Host, buffer: array<byte>, request: Request, source: seq<byte>, ghost p: Plan, ghost start: nat,
      ghost row: nat, ghost rects: nat) returns (ret: int)
      requires At(p, start, State(row, rects, Asking(0))) && row < p.height && !p.compress && p.busyRetries == 0
      requires source == Source(p, row) && |source| <= buffer.Length
      requires request == Request(0, row, p.width, Rows(p, row), |source|, 0, 0)
      modifies this`wire, buffer
      ensures |old(wire)| <= |wire| && wire[..|old(wire)|] == old(wire)
      ensures At(p, start, if ret == 0 then State(row + Rows(p, row), rects + 1, Asking(0))
                           else State(row, rects, Stopped(ret)))
      ensures OneRectangle(wire, |old(wire)|)
    {
      Load(buffer, source);
      ghost var before := wire;
      ret := Set(host, request);
      Asked(p, start, before, wire, row, rects, 0);
      if ret == 0 {
        var actual;
        ret, actual := Push(host, buffer, |source|, p, start, row, rects);
        if ret == 0 && actual != |source| {
          ret := -EIO;
        }
      }
    }

    /** One turn of the plain loop. */
    method SendChunk(
      host: Host, buffer: array<byte>, width: u32, vaddr: array<byte>, length: nat, bytesPerLine: nat,
      rowsPerChunk: nat, offset: nat, ghost p: Plan, ghost start: nat, ghost row: nat, ghost rects: nat)
      returns (ret: int, chunk: nat, ghost next: nat)
      requires vaddr != buffer && length <= vaddr.Length && Sound(p)
      requires p.frame == vaddr[..length] && p.line == bytesPerLine && p.maxRows == rowsPerChunk && p.width == width
      requires !p.compress && p.busyRetries == 0
      requires row < p.height && offset == p.line * row && |Source(p, row)| <= buffer.Length
      requires At(p, start, State(row, rects, Asking(0)))
      modifies this`wire, buffer
      ensures |old(wire)| <= |wire| && wire[..|old(wire)|] == old(wire)
      ensures row < next == row + Rows(p, row) <= p.height && offset + chunk == p.line * next
      ensures offset + chunk >= length <==> next == p.height
      ensures At(p, start, if ret == 0 then State(next, rects + 1, Asking(0)) else State(row, rects, Stopped(ret)))
      ensures OneRectangle(wire, |old(wire)|)
    {
      next := row + Rows(p, row);
      Turn(p, row, offset);
      RowsDone(p, next);
      var rows := Min(rowsPerChunk, (length - offset) / bytesPerLine);
      chunk := rows * bytesPerLine;
      var request := Request(0, offset / bytesPerLine, width, rows, chunk, 0, 0);
      ret := SendRaw(host, buffer, request, vaddr[..length][offset..offset + chunk], p, start, row, rects);
    }

    /** gud_pipe_transfer of the build without full-frame updates, from the layout on. */
    method TransferPlain(host: Host, ghost lz: Codec<byte>, fb: Framebuffer, vaddr: array<byte>)
      returns (ret: int, ghost rectangles: nat)
      requires LengthOf(fb) <= vaddr.Length
      modifies this`wire
      ensures |old(wire)| <= |wire| && wire[..|old(wire)|] == old(wire)
      ensures match PlainPlanOf(lz, maxBufferSize, fb, vaddr[..])
              case Refused(e) => ret == e && wire == old(wire)
              case Planned(p) =>
                && Sound(p) && Outcome(p, wire[|old(wire)|..], host.gone(wire), ret, rectangles)
                && Explained(wire[|old(wire)|..], host.gone(wire), 1, ret)
      ensures HeedsDisconnect(host, wire, |old(wire)|)
    {
      rectangles := 0;
      var layout := FormatFrameLayout(fb.width, fb.height, fb.format);
      if layout.Rejected? {
        return layout.error, 0;
      }
      var bytesPerLine, length := layout.bytesPerLine, layout.length;
      if maxBufferSize == 0 {
        return -EINVAL, 0;
      }
      LayoutIsExact(fb.width, fb.height, fb.format);
      var rowsPerChunk := RowsPerChunk(maxBufferSize, bytesPerLine);
      if rowsPerChunk == 0 {
        return -EINVAL, 0;
      }
      PlainPlanIsSound(lz, maxBufferSize, fb, vaddr[..]);
      ghost var p := PlainPlanOf(lz, maxBufferSize, fb, vaddr[..]).plan;
      rowsPerChunk := Min(rowsPerChunk, fb.height);
      var bulkBuffer := new byte[rowsPerChunk * bytesPerLine](_ => 0);
      ret, rectangles := SendChunks(host, bulkBuffer, fb.width, vaddr, length, bytesPerLine, rowsPerChunk, p);
      OutcomeIsExplained(p, wire[|old(wire)|..], host.gone(wire), ret, rectangles);
    }

    /** Its loop over the frame. */
    method SendChunks(
      host: Host, buffer: array<byte>, width: u32, vaddr: array<byte>, length: nat, bytesPerLine: nat,
      rowsPerChunk: nat, ghost p: Plan) returns (ret: int, ghost rectangles: nat)
      requires vaddr != buffer && length <= vaddr.Length && Sound(p)
      requires p.frame == vaddr[..length] && p.line == bytesPerLine && p.maxRows == rowsPerChunk && p.width == width
      requires !p.compress && p.busyRetries == 0
      requires forall row :: 0 <= row < p.height ==> |Source(p, row)| <= buffer.Length
      modifies this`wire, buffer
      ensures |old(wire)| <= |wire| && wire[..|old(wire)|] == old(wire)
      ensures Outcome(p, wire[|old(wire)|..], host.gone(wire), ret, rectangles)
      ensures HeedsDisconnect(host, wire, |old(wire)|)
    {
      ghost var start, row := |wire|, 0;
      var offset := 0;
      ret, rectangles := 0, 0;
      RowsDone(p, row);
      while offset < length
        invariant start <= |wire| && wire[..start] == old(wire) && p.frame == vaddr[..length]
        invariant row <= p.height && offset == p.line * row && (offset >= length <==> row == p.height)
        invariant ret == 0 && At(p, start, State(row, rectangles, Asking(0)))
        invariant HeedsDisconnect(host, wire, start)
        decreases p.height - row
      {
        if host.gone(wire) {
          ret := -ENODEV;
          break;
        }
        var chunk;
        ghost var next, before := 0, wire;
        ret, chunk, next :=
          SendChunk(host, buffer, width, vaddr, length, bytesPerLine, rowsPerChunk, offset, p, start, row, rectangles);
        HeedsMore(host, before, wire, start);
        if ret != 0 {
          break;
        }
        offset := offset + chunk;
        rectangles := rectangles + 1;
        row := next;
      }
    }
  }

  /** The complete rows of one chunk. */
  function RowsPerChunk(maxBufferSize: nat, line: nat): (n: nat)
    requires line > 0
    ensures line * n <= BULK_CHUNK_SIZE
  {
    var size := Min(maxBufferSize, BULK_CHUNK_SIZE);
    QuotientAtLeast(size, line, 0);
    QuotientAtLeast(size, line, size / line);
    size / line
  }

  /** The same for the plain transfer: at most 64 KiB of raw rows at a time, and no second SET_BUFFER attempt. */
  function PlainPlanOf(lz: Codec<byte>, maxBufferSize: nat, fb: Framebuffer, memory: seq<byte>): Planned
    requires LengthOf(fb) <= |memory|
  {
    match FormatFrameLayout(fb.width, fb.height, fb.format)
    case Rejected(e) => Refused(e)
    case Layout(line, length) =>
      if maxBufferSize == 0 || line == 0 then Refused(-EINVAL) else
      var rows := RowsPerChunk(maxBufferSize, line);
      if rows == 0 then Refused(-EINVAL)
      else Planned(Plan(lz, fb.width, fb.height, BytesPerPixel(fb.format), line, Min(rows, fb.height), memory[..length],
                        false, 0))
  }

  lemma RowsPerChunkIsMost(maxBufferSize: nat, line: nat)
    requires line > 0
    ensures var room, n := Min(maxBufferSize, 65536), RowsPerChunk(maxBufferSize, line);
            line * n <= room && line * (n + 1) > room && (n == 0 <==> line > room)
  {
    var room := Min(maxBufferSize, BULK_CHUNK_SIZE);
    QuotientAtLeast(room, line, 1);
    QuotientAtLeast(room, line, room / line);
    QuotientAtLeast(room, line, room / line + 1);
  }

  /** The same of the plain transfer: chunks of as many rows as fit both the device's limit and 64 KiB. */
  lemma PlainPlanIsExact(lz: Codec<byte>, maxBufferSize: nat, fb: Framebuffer, memory: seq<byte>)
    requires LengthOf(fb) <= |memory|
    ensures var line, n := LineBytes(fb.width, fb.format), FrameBytes(fb.width, fb.height, fb.format);
            var room := Min(maxBufferSize, 65536);
            match PlainPlanOf(lz, maxBufferSize, fb, memory)
            case Refused(e) =>
              if n > U32_MAX then e == -EOVERFLOW else e == -EINVAL && (n == 0 || maxBufferSize == 0 || line > room)
            case Planned(p) =>
              && 0 < n <= U32_MAX && n <= |memory| && line <= room
              && p.width == fb.width && p.height == fb.height && p.line == line
              && p.frame == memory[..n] && !p.compress && p.busyRetries == 0
              && 0 < p.maxRows <= p.height && line * p.maxRows <= room
              && (p.maxRows == p.height || line * (p.maxRows + 1) > room)
  {
    LayoutIsExact(fb.width, fb.height, fb.format);
    var line, n := LineBytes(fb.width, fb.format), FrameBytes(fb.width, fb.height, fb.format);
    if 0 < n <= U32_MAX {
      RowsPerChunkIsMost(maxBufferSize, line);
      ScaleMonotone(line, Min(RowsPerChunk(maxBufferSize, line), fb.height), RowsPerChunk(maxBufferSize, line));
    }
  }

  lemma SourcesWithin(p: Plan)
    requires Sound(p)
    ensures forall row :: 0 <= row < p.height ==> |Source(p, row)| <= p.maxRows * p.line
  {
    forall row | 0 <= row < p.height
      ensures |Source(p, row)| <= p.maxRows * p.line
    {
      ScaleMonotone(p.line, Rows(p, row), p.maxRows);
    }
  }

  lemma PlainPlanCovers(lz: Codec<byte>, maxBufferSize: nat, fb: Framebuffer, memory: seq<byte>)
    requires LengthOf(fb) <= |memory| && PlainPlanOf(lz, maxBufferSize, fb, memory).Planned?
    ensures Sound(PlainPlanOf(lz, maxBufferSize, fb, memory).plan)
  {
    LayoutIsExact(fb.width, fb.height, fb.format);
  }

  lemma ChunkWithin(maxBufferSize: nat, line: nat, rows: nat)
    requires line > 0 && rows <= RowsPerChunk(maxBufferSize, line)
    ensures 0 <= rows * line <= BULK_CHUNK_SIZE
  {
    ProductNonNegative(rows, line);
    ScaleMonotone(line, rows, RowsPerChunk(maxBufferSize, line));
  }

  /** A plain plan covers the frame too, in chunks of at most 64 KiB. */
  lemma PlainPlanIsSound(lz: Codec<byte>, maxBufferSize: nat, fb: Framebuffer, memory: seq<byte>)
    requires LengthOf(fb) <= |memory| && PlainPlanOf(lz, maxBufferSize, fb, memory).Planned?
    ensures var p := PlainPlanOf(lz, maxBufferSize, fb, memory).plan;
            && Sound(p) && 0 <= p.maxRows * p.line <= BULK_CHUNK_SIZE
            && forall row :: 0 <= row < p.height ==> |Source(p, row)| <= p.maxRows * p.line
  {
    var p := PlainPlanOf(lz, maxBufferSize, fb, memory).plan;
    PlainPlanCovers(lz, maxBufferSize, fb, memory);
    ChunkWithin(maxBufferSize, p.line, p.maxRows);
    SourcesWithin(p);
  }

  lemma RowOfOffset(p: Plan, row: nat)
    requires Sound(p) && row <= p.height
    ensures (|p.frame| - p.line * row) / p.line == p.height - row && p.line * row / p.line == row
  {
    DivModUnique(p.line * p.height - p.line * row, p.line, p.height - row, 0);
    DivModUnique(p.line * row, p.line, row, 0);
  }

  lemma SourceBytes(p: Plan, row: nat)
    requires Sound(p) && row < p.height
    ensures var from, n := p.line * row, Rows(p, row) * p.line;
            0 <= from <= from + n <= |p.frame| && p.frame[from..from + n] == Source(p, row)
            && from + n == p.line * (row + Rows(p, row))
  {
    assert p.line * (row + Rows(p, row)) == p.line * row + Rows(p, row) * p.line;
    ScaleMonotone(p.line, 0, row);
    ScaleMonotone(p.line, row, row + Rows(p, row));
    ScaleMonotone(p.line, row + Rows(p, row), p.height);
  }

  /** The numbers of one turn of the loop, computed from the byte offset. */
  lemma Turn(p: Plan, row: nat, offset: nat)
    requires Sound(p) && row < p.height && offset == p.line * row
    ensures offset <= |p.frame| && (|p.frame| - offset) / p.line == p.height - row && offset / p.line == row
    ensures var n := Rows(p, row) * p.line;
            && n == |Source(p, row)| && offset + n <= |p.frame| && p.frame[offset..offset + n] == Source(p, row)
            && offset + n == p.line * (row + Rows(p, row))
  {
    RowOfOffset(p, row);
    SourceBytes(p, row);
  }

  lemma RowsDone(p: Plan, row: nat)
    requires Sound(p) && row <= p.height
    ensures p.line * row >= |p.frame| <==> row == p.height
  {
    if row < p.height {
      ScaleMonotone(p.line, row + 1, p.height);
    }
  }

  /** One more event on the wire is one more step. */
  lemma Sent(p: Plan, start: nat, before: seq<Event>, after: seq<Event>)
    requires Sound(p) && start <= |before| && Run(p, before[start..]).Some?
    requires |after| == |before| + 1 && after[..|before|] == before
    ensures Run(p, after[start..]) == Step(p, Run(p, before[start..]).value, after[|before|])
  {
    assert after == before + [after[|before|]];
    assert after[start..] == before[start..] + [after[|before|]];
    RunStep(p, before[start..], after[|before|]);
  }

  lemma Asked(p: Plan, start: nat, before: seq<Event>, after: seq<Event>, row: nat, rects: nat, busy: nat)
    requires Sound(p) && start <= |before| && Run(p, before[start..]) == Some(State(row, rects, Asking(busy)))
    requires |after| == |before| + 1 && after[..|before|] == before && row < p.height
    requires after[|before|].SetBuffer? && after[|before|].request == RectRequest(p, row)
    ensures Run(p, after[start..]) == Some(AfterSetBuffer(p, row, rects, busy, after[|before|].result))
  {
    Sent(p, start, before, after);
  }

  lemma Pushed(p: Plan, start: nat, before: seq<Event>, after: seq<Event>, row: nat, rects: nat, again: nat)
    requires Sound(p) && start <= |before| && Run(p, before[start..]) == Some(State(row, rects, Sending(again)))
    requires |after| == |before| + 1 && after[..|before|] == before && row < p.height
    requires after[|before|].Bulk? && after[|before|].payload == RectPayload(p, row)
    ensures Run(p, after[start..]) == Some(AfterBulk(p, row, rects, again, after[|before|]))
  {
    Sent(p, start, before, after);
  }

  /** With buffers set up for a mode at least as wide, only the layout can refuse a frame, not the budget. */
  lemma OnlyLayoutRefuses(
    lz: Codec<byte>, maxBufferSize: u32, maxWidth: u32, maxHeight: u32, compress: bool, fb: Framebuffer,
    memory: seq<byte>)
    requires maxWidth > 0 && maxHeight > 0 && BuffersInit(maxBufferSize, maxWidth, maxHeight).Layout?
    requires fb.width <= maxWidth && LengthOf(fb) <= |memory|
    ensures var layout := FormatFrameLayout(fb.width, fb.height, fb.format);
            var budget := BuffersInit(maxBufferSize, maxWidth, maxHeight).length;
            var planned := PlanOf(lz, maxBufferSize, budget, compress, fb, memory);
            if layout.Rejected? then planned == Refused(layout.error) else planned.Planned?
  {
    BudgetIsExact(maxBufferSize, maxWidth, maxHeight);
    if FormatFrameLayout(fb.width, fb.height, fb.format).Layout? {
      RectanglesFit(maxBufferSize, maxWidth, maxHeight, fb.width, fb.height, fb.format);
    }
  }

  // ---------------------------------------------------------------- coverage

  /** The requests whose payload was completely sent, in order; read off the wire alone. */
  function CompletedRequests(events: seq<Event>): seq<Request> {
    if events == [] then [] else
    var n := |events| - 1;
    var before := CompletedRequests(events[..n]);
    if Completed(events[n]) && LastRequest(events[..n]).Some? then before + [LastRequest(events[..n]).value] else before
  }

  /** The latest accepted request. */
  function LastRequest(events: seq<Event>): Option<Request> {
    if events == [] then None else
    var n := |events| - 1;
    if events[n].SetBuffer? && events[n].result == 0 then Some(events[n].request) else LastRequest(events[..n])
  }

  /** Full-width rectangles one below the other, from the top to row `bottom`. */
  predicate Tiles(requests: seq<Request>, width: nat, bottom: nat) {
    if requests == [] then bottom == 0 else
    var last := requests[|requests| - 1];
    && last.x == 0 && last.width == width && 0 < last.height && last.y + last.height == bottom
    && Tiles(requests[..|requests| - 1], width, last.y)
  }

  /** All but the last are of maxRows rows, so their number is the least possible. */
  predicate Filled(p: Plan, row: nat, rects: nat)
    requires Sound(p)
  {
    if row < p.height then row == p.maxRows * rects
    else row == p.height && rects > 0 && p.maxRows * (rects - 1) < p.height <= p.maxRows * rects
  }

  lemma NextFilled(p: Plan, row: nat, rects: nat)
    requires Sound(p) && row < p.height && Filled(p, row, rects)
    ensures Filled(p, row + Rows(p, row), rects + 1)
  {
    assert p.maxRows * (rects + 1) == p.maxRows * rects + p.maxRows;
  }

  /** In every state the driver can be in, the completed requests tile the rows done so far. */
  lemma {:induction false} PairsTile(p: Plan, events: seq<Event>)
    requires Sound(p) && Run(p, events).Some?
    ensures var s, done := Run(p, events).value, CompletedRequests(events);
            && s.row <= p.height && |done| == s.rects && Tiles(done, p.width, s.row) && Filled(p, s.row, s.rects)
            && (s.phase.Sending? ==> s.row < p.height && LastRequest(events) == Some(RectRequest(p, s.row)))
  {
    if events != [] {
      var n := |events| - 1;
      PairsTile(p, events[..n]);
      var s := Run(p, events[..n]).value;
      NextFilled(p, s.row, s.rects);
      if Completed(events[n]) {
        var done := CompletedRequests(events[..n]);
        assert (done + [RectRequest(p, s.row)])[..|done|] == done;
      }
    }
  }

  // ---------------------------------------------------------------- order and retries

  lemma {:induction false} RetriesCounted(p: Plan, events: seq<Event>)
    requires Sound(p) && Run(p, events).Some?
    ensures TrailingAsks(events) <= p.busyRetries + 1 && TrailingBulks(events) <= EAGAIN_RETRIES + 1
    ensures match Run(p, events).value.phase
            case Asking(busy) => TrailingAsks(events) == busy <= p.busyRetries
            case Sending(again) => TrailingBulks(events) == again <= EAGAIN_RETRIES
            case Stopped(_) => true
  {
    if events != [] {
      RetriesCounted(p, events[..|events| - 1]);
    }
  }

  /** A run that ends in a busy answer has stopped exactly when it has asked busyRetries + 1 times. */
  lemma BusyIsRetried(p: Plan, events: seq<Event>)
    requires Sound(p) && Run(p, events).Some? && events != []
    requires events[|events| - 1].SetBuffer? && events[|events| - 1].result == -EBUSY
    ensures Run(p, events).value.phase.Stopped? <==> TrailingAsks(events) == p.busyRetries + 1
    ensures Run(p, events).value.phase == if TrailingAsks(events) == p.busyRetries + 1 then Stopped(-EBUSY)
                                          else Asking(TrailingAsks(events))
  {
    RetriesCounted(p, events[..|events| - 1]);
  }

  /** A run that ends in -EAGAIN has stopped exactly when it has sent the payload 101 times. */
  lemma AgainIsRetried(p: Plan, events: seq<Event>)
    requires Sound(p) && Run(p, events).Some? && events != []
    requires events[|events| - 1].Bulk? && events[|events| - 1].result == -EAGAIN
    ensures Run(p, events).value.phase.Stopped? <==> TrailingBulks(events) == 101
    ensures Run(p, events).value.phase == if TrailingBulks(events) == 101 then Stopped(-EAGAIN)
                                          else Sending(TrailingBulks(events))
  {
    RetriesCounted(p, events[..|events| - 1]);
  }

  /** An answer that ends neither is final at once: a run goes on after it exactly when it is a success. */
  lemma OtherAnswersAreFinal(p: Plan, events: seq<Event>)
    requires Sound(p) && Run(p, events).Some? && events != []
    requires var last := events[|events| - 1]; last.result != if last.SetBuffer? then -EBUSY else -EAGAIN
    ensures Run(p, events).value.phase.Stopped? <==> WireError(events) != 0
    ensures WireError(events) != 0 ==> Run(p, events).value.phase == Stopped(WireError(events))
  {
  }

  /** However a call ends, the answers on the wire explain its return value. */
  lemma OutcomeIsExplained(p: Plan, events: seq<Event>, gone: bool, ret: int, rectangles: nat)
    requires Sound(p) && Outcome(p, events, gone, ret, rectangles)
    ensures Explained(events, gone, p.busyRetries + 1, ret)
  {
    PairsTile(p, events);
    if events != [] {
      var last := events[|events| - 1];
      if last.SetBuffer? && last.result == -EBUSY {
        BusyIsRetried(p, events);
      } else if last.Bulk? && last.result == -EAGAIN {
        AgainIsRetried(p, events);
      } else {
        OtherAnswersAreFinal(p, events);
      }
    }
  }

  predicate Accepted(e: Event) {
    e.SetBuffer? && e.result == 0
  }

  /** The accepted request names a rectangle of the plan, and the payload is that rectangle's. */
  predicate Answers(p: Plan, before: Event, payload: Event)
    requires Sound(p) && payload.Bulk?
  {
    && Accepted(before) && before.request.y < p.height && before.request == RectRequest(p, before.request.y)
    && payload.payload == RectPayload(p, before.request.y)
  }

  /**
   * On every run: a payload follows its accepted request or its own -EAGAIN, a request is repeated only
   * after an explicit busy answer and otherwise follows a completed payload, and each loop makes at most
   * 100 retries (none for the requests of the plain transfer).
   */
  lemma WireDiscipline(p: Plan, events: seq<Event>, i: nat)
    requires Sound(p) && Run(p, events).Some? && i < |events|
    ensures TrailingAsks(events[..i + 1]) <= p.busyRetries + 1 && TrailingBulks(events[..i + 1]) <= EAGAIN_RETRIES + 1
    ensures events[i].Bulk? ==>
              i > 0 && var before := events[i - 1];
                       Answers(p, before, events[i])
                       || (before.Bulk? && before.result == -EAGAIN && before.payload == events[i].payload)
    ensures events[i].SetBuffer? && i > 0 ==>
              var before := events[i - 1];
              Completed(before)
              || (before.SetBuffer? && before.result == -EBUSY && before.request == events[i].request)
  {
    RunPrefix(p, events, i + 1);
    RetriesCounted(p, events[..i + 1]);
    assert events[..i + 1][..i] == events[..i] && events[..i + 1][i] == events[i];
    if i > 0 {
      RunPrefix(p, events, i);
      assert events[..i][..i - 1] == events[..i - 1] && events[..i][i - 1] == events[i - 1];
      assert Run(p, events[..i]) == Step(p, Run(p, events[..i - 1]).value, events[i - 1]);
    }
  }

  // ---------------------------------------------------------------- what the device holds

  /** A device: how it decompresses, its pixel size and row length; the request it waits for and its picture. */
  datatype Screen = Screen(lz: Codec<byte>, bpp: nat, line: nat)
  datatype Device = Device(pending: Option<Request>, canvas: seq<byte>)

  function Content(screen: Screen, request: Request, payload: seq<byte>): Option<seq<byte>> {
    if request.compression == 0 then Some(payload)
    else if request.compression == COMPRESSION_LZ4 && request.compressedLength == |payload| then
      screen.lz.decompress(payload, request.length)
    else None
  }

  /** A rectangle the device can draw; anything else it drops. */
  predicate Drawable(screen: Screen, request: Request, content: seq<byte>, size: nat) {
    && request.x == 0 && request.width * screen.bpp == screen.line
    && |content| == request.length == screen.line * request.height
    && 0 <= screen.line * request.y && screen.line * (request.y + request.height) <= size
  }

  function Draw(screen: Screen, request: Request, payload: seq<byte>, canvas: seq<byte>): seq<byte> {
    match Content(screen, request, payload)
    case None => canvas
    case Some(content) =>
      if Drawable(screen, request, content, |canvas|) then
        ScaleMonotone(screen.line, request.y, request.y + request.height);
        canvas[..screen.line * request.y] + content + canvas[screen.line * (request.y + request.height)..]
      else canvas
  }

  function Receive(screen: Screen, d: Device, e: Event): Device {
    match e
    case SetBuffer(request, result) => if result == 0 then d.(pending := Some(request)) else d
    case Bulk(payload, _, _, reached) =>
      if (reached || Completed(e)) && d.pending.Some? then
        d.(canvas := Draw(screen, d.pending.value, payload, d.canvas))
      else d
  }

  function Play(screen: Screen, d: Device, events: seq<Event>): Device {
    if events == [] then d else
    Receive(screen, Play(screen, d, events[..|events| - 1]), events[|events| - 1])
  }

  /** The first rows from the frame, the others as they were. */
  function Painted(p: Plan, canvas: seq<byte>, row: nat): (c: seq<byte>)
    requires Sound(p) && row <= p.height && |canvas| == |p.frame|
    ensures |c| == |p.frame|
  {
    ScaleMonotone(p.line, 0, row);
    ScaleMonotone(p.line, row, p.height);
    p.frame[..p.line * row] + canvas[p.line * row..]
  }

  lemma ContentIsSource(p: Plan, row: nat)
    requires Sound(p) && Faithful(p.lz) && row < p.height
    ensures Content(Screen(p.lz, p.bpp, p.line), RectRequest(p, row), RectPayload(p, row)) == Some(Source(p, row))
  {
  }

  /** Drawing a slice of the frame over either picture gives the picture with that slice. */
  lemma Splice(frame: seq<byte>, canvas: seq<byte>, now: seq<byte>, a: nat, b: nat)
    requires a <= b <= |frame| == |canvas|
    requires now == frame[..a] + canvas[a..] || now == frame[..b] + canvas[b..]
    ensures now[..a] + frame[a..b] + now[b..] == frame[..b] + canvas[b..]
  {
  }

  lemma DrawPaints(p: Plan, canvas: seq<byte>, now: seq<byte>, row: nat)
    requires Sound(p) && Faithful(p.lz) && row < p.height && |canvas| == |p.frame|
    requires now == Painted(p, canvas, row) || now == Painted(p, canvas, row + Rows(p, row))
    ensures Draw(Screen(p.lz, p.bpp, p.line), RectRequest(p, row), RectPayload(p, row), now)
         == Painted(p, canvas, row + Rows(p, row))
  {
    var n := Rows(p, row);
    ContentIsSource(p, row);
    SourceBytes(p, row);
    Splice(p.frame, canvas, now, p.line * row, p.line * (row + n));
  }

  predicate EndsInBulk(events: seq<Event>) {
    events != [] && events[|events| - 1].Bulk?
  }

  /** The last thing sent was a payload, and the host did not see all of it leave. */
  predicate BulkFailed(events: seq<Event>) {
    EndsInBulk(events) && !Completed(events[|events| - 1])
  }

  predicate Arrives(e: Event) {
    e.Bulk? && (e.reached || Completed(e))
  }

  /** One of the bulk transfers in a row at the end has reached the device. */
  predicate TailArrived(events: seq<Event>) {
    EndsInBulk(events) && (Arrives(events[|events| - 1]) || TailArrived(events[..|events| - 1]))
  }

  /** The rows done, and the rectangle under way once a payload of it has arrived. */
  function Shown(p: Plan, before: seq<byte>, s: State, arrived: bool): seq<byte>
    requires Sound(p) && |before| == |p.frame| && s.row <= p.height
  {
    if arrived && !s.phase.Asking? && s.row < p.height then Painted(p, before, s.row + Rows(p, s.row))
    else Painted(p, before, s.row)
  }

  /** What a device that has received the events of a driver in state s looks like. */
  predicate InStep(p: Plan, before: seq<byte>, s: State, arrived: bool, d: Device)
    requires Sound(p) && |before| == |p.frame|
  {
    && s.row <= p.height
    && d.canvas == Shown(p, before, s, arrived)
    && (s.phase.Sending? ==> s.row < p.height && d.pending == Some(RectRequest(p, s.row)))
  }

  /** A payload that arrives completes its rectangle; any other leaves the picture alone. */
  lemma BulkPaints(p: Plan, before: seq<byte>, row: nat, arrived: bool, d: Device, e: Event)
    requires Sound(p) && Faithful(p.lz) && |before| == |p.frame| && row < p.height
    requires d.canvas == Painted(p, before, if arrived then row + Rows(p, row) else row)
    requires d.pending == Some(RectRequest(p, row)) && e.Bulk? && e.payload == RectPayload(p, row)
    ensures var now := Receive(Screen(p.lz, p.bpp, p.line), d, e);
            && now.pending == d.pending
            && now.canvas == Painted(p, before, if Arrives(e) || arrived then row + Rows(p, row) else row)
  {
    DrawPaints(p, before, d.canvas, row);
  }

  lemma InStepAfterBulk(
    p: Plan, before: seq<byte>, row: nat, rects: nat, again: nat, arrived: bool, d: Device, e: Event)
    requires Sound(p) && Faithful(p.lz) && |before| == |p.frame| && row < p.height
    requires InStep(p, before, State(row, rects, Sending(again)), arrived, d)
    requires e.Bulk? && e.payload == RectPayload(p, row)
    ensures InStep(p, before, AfterBulk(p, row, rects, again, e), Arrives(e) || arrived,
                   Receive(Screen(p.lz, p.bpp, p.line), d, e))
  {
    BulkPaints(p, before, row, arrived, d, e);
    var next := AfterBulk(p, row, rects, again, e);
    if Completed(e) {
      assert next == State(row + Rows(p, row), rects + 1, Asking(0));
    } else {
      assert next.row == row && !next.phase.Asking?;
    }
  }

  lemma InStepAfter(p: Plan, before: seq<byte>, s: State, arrived: bool, d: Device, e: Event)
    requires Sound(p) && Faithful(p.lz) && |before| == |p.frame| && InStep(p, before, s, arrived, d)
    requires Step(p, s, e).Some?
    ensures InStep(p, before, Step(p, s, e).value, Arrives(e) || (e.Bulk? && arrived),
                   Receive(Screen(p.lz, p.bpp, p.line), d, e))
  {
    if s.phase.Sending? {
      InStepAfterBulk(p, before, s.row, s.rects, s.phase.again, arrived, d, e);
    }
  }

  /**
   * In every reachable state the device shows the rows done, and the rectangle under way exactly when one
   * of its payloads has arrived.
   */
  lemma {:induction false} PictureOfRun(p: Plan, d: Device, events: seq<Event>)
    requires Sound(p) && Faithful(p.lz) && |d.canvas| == |p.frame| && Run(p, events).Some?
    ensures InStep(p, d.canvas, Run(p, events).value, TailArrived(events),
                   Play(Screen(p.lz, p.bpp, p.line), d, events))
  {
    if events == [] {
      assert Painted(p, d.canvas, 0) == d.canvas;
    } else {
      var n := |events| - 1;
      var before := events[..n];
      PictureOfRun(p, d, before);
      InStepAfter(p, d.canvas, Run(p, before).value, TailArrived(before), Play(Screen(p.lz, p.bpp, p.line), d, before),
                  events[n]);
    }
  }

  /**
   * The transfer refines a plain copy: when it returns 0, the completed requests tile the frame with the
   * least number of rectangles and the device holds exactly the frame.
   */
  lemma SuccessIsCopy(p: Plan, d: Device, events: seq<Event>, gone: bool, rectangles: nat)
    requires Sound(p) && Faithful(p.lz) && |d.canvas| == |p.frame| && Outcome(p, events, gone, 0, rectangles)
    ensures Play(Screen(p.lz, p.bpp, p.line), d, events).canvas == p.frame
    ensures Tiles(CompletedRequests(events), p.width, p.height) && |CompletedRequests(events)| == rectangles
    ensures rectangles == (p.height + p.maxRows - 1) / p.maxRows
  {
    PairsTile(p, events);
    PictureOfRun(p, d, events);
    assert Painted(p, d.canvas, p.height) == p.frame;
    RoundedUp(p.height, p.maxRows, rectangles);
  }

  /**
   * When it returns an error, the completed requests tile a proper prefix of the rows, made of full
   * rectangles, and the device holds that prefix of the frame - and the next rectangle as well exactly
   * when its bulk failed and one of the attempts arrived all the same.
   */
  lemma FailureIsPrefix(p: Plan, d: Device, events: seq<Event>, gone: bool, ret: int, rectangles: nat)
    requires Sound(p) && Faithful(p.lz) && |d.canvas| == |p.frame|
    requires ret != 0 && Outcome(p, events, gone, ret, rectangles)
    ensures var row := p.maxRows * rectangles;
            && 0 <= row < p.height
            && Tiles(CompletedRequests(events), p.width, row) && |CompletedRequests(events)| == rectangles
            && Play(Screen(p.lz, p.bpp, p.line), d, events).canvas
               == Painted(p, d.canvas, if BulkFailed(events) && TailArrived(events) then row + Rows(p, row) else row)
  {
    PairsTile(p, events);
    PictureOfRun(p, d, events);
    StoppedEarly(p, events);
  }

  /** So a call that returns 0 has copied the frame in memory to the device, byte for byte. */
  lemma ZeroMeansCopied(
    lz: Codec<byte>, maxBufferSize: nat, maxSourceLength: nat, compress: bool, fb: Framebuffer, memory: seq<byte>,
    d: Device, events: seq<Event>, gone: bool, rectangles: nat)
    requires Faithful(lz) && LengthOf(fb) <= |memory| && |d.canvas| == LengthOf(fb)
    requires PlanOf(lz, maxBufferSize, maxSourceLength, compress, fb, memory).Planned?
    requires var p := PlanOf(lz, maxBufferSize, maxSourceLength, compress, fb, memory).plan;
             Sound(p) && Outcome(p, events, gone, 0, rectangles)
    ensures var screen := Screen(lz, BytesPerPixel(fb.format), LineBytes(fb.width, fb.format));
            Play(screen, d, events).canvas == memory[..LengthOf(fb)]
  {
    var p := PlanOf(lz, maxBufferSize, maxSourceLength, compress, fb, memory).plan;
    LayoutIsExact(fb.width, fb.height, fb.format);
    SuccessIsCopy(p, d, events, gone, rectangles);
  }

  /** A driver that stopped had rows left, and the bulk it stopped at had failed; it asks after completed ones only. */
  lemma StoppedEarly(p: Plan, events: seq<Event>)
    requires Sound(p) && Run(p, events).Some?
    ensures Run(p, events).value.phase.Stopped? ==> Run(p, events).value.row < p.height
    ensures Run(p, events).value.phase.Stopped? && EndsInBulk(events) ==> BulkFailed(events)
    ensures Run(p, events).value.phase.Asking? ==> !BulkFailed(events)
  {
  }
}
