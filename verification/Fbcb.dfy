/**
 * The FBCB file format of damage streams: little-endian fields, a header and one record per event.
 * Pixels are the bytes they occupy in memory, as the writer and the reader treat them.
 */
module Fbcb {
  import opened Arith
  import opened Bytes
  import opened Sequences

  datatype Event = Event(timestamp: u64, frameNumber: u32, x: u32, y: u32, w: u32, h: u32, pixels: seq<byte>)
  datatype Stream = Stream(width: u32, height: u32, events: seq<Event>)

  // ---------------------------------------------------------------- little-endian numbers

  function Span(n: nat): nat {
    if n == 0 then 1 else 0x100 * Span(n - 1)
  }

  lemma Spans()
    ensures Span(4) == U32_SPAN && Span(8) == U64_SPAN
  {
    assert Span(1) == 0x100 && Span(2) == 0x1_0000 && Span(3) == 0x100_0000 && Span(4) == U32_SPAN;
    assert Span(5) == 0x100 * U32_SPAN && Span(6) == 0x1_0000 * U32_SPAN && Span(7) == 0x100_0000 * U32_SPAN;
  }

  function Little(n: nat, v: nat): (b: seq<byte>)
    ensures |b| == n
  {
    if n == 0 then [] else [v % 0x100] + Little(n - 1, v / 0x100)
  }

  function Value(b: seq<byte>): (v: nat)
    ensures v < Span(|b|)
  {
    if b == [] then 0 else b[0] + 0x100 * Value(b[1..])
  }

  lemma {:induction false} ValueOfLittle(n: nat, v: nat)
    requires v < Span(n)
    ensures Value(Little(n, v)) == v
  {
    if n > 0 {
      ValueOfLittle(n - 1, v / 0x100);
      assert Little(n, v)[1..] == Little(n - 1, v / 0x100);
    }
  }

  /** Little-endian: byte k counts 256^k. */
  lemma {:induction false} LittleByte(n: nat, v: nat, k: nat)
    requires k < n
    ensures 0 < Span(k) && Little(n, v)[k] == v / Span(k) % 0x100
  {
    if k > 0 {
      LittleByte(n - 1, v / 0x100, k - 1);
      DivDiv(v, 0x100, Span(k - 1));
    }
  }

  lemma DivDiv(v: nat, a: nat, b: nat)
    requires a > 0 && b > 0
    ensures a * b > 0 && v / a / b == v / (a * b)
  {
    ScaleUp(a, b);
    var q, r := v / a / b, v / a % b;
    assert v / a == b * q + r;
    assert v == a * (v / a) + v % a;
    assert v == (a * b) * q + (a * r + v % a);
    ScaleMonotone(a, r + 1, b);
    assert a * (r + 1) == a * r + a;
    ProductNonNegative(a, r);
    DivModUnique(v, a * b, q, a * r + v % a);
  }

  // ---------------------------------------------------------------- printing

  const MAGIC: seq<byte> := [0x46, 0x42, 0x43, 0x42]
  const VERSION: u32 := 1
  const FORMAT: u32 := 0
  const HEADER: nat := 24
  const RECORD: nat := 36

  function Stride(e: Event): u32 {
    e.w * 2 % U32_SPAN
  }

  /** The bytes the writer takes from an event's pixels, counted in 32 bits. */
  function PayloadLength(e: Event): u32 {
    ProductNonNegative(e.h, Stride(e));
    e.h * Stride(e) % U32_SPAN
  }

  /** The bytes of w times h pixels. */
  function PixelBytes(e: Event): nat {
    ProductNonNegative(e.w, e.h);
    2 * (e.w * e.h)
  }

  ghost predicate Tight(s: Stream) {
    forall i :: 0 <= i < |s.events| ==> |s.events[i].pixels| == PixelBytes(s.events[i])
  }

  lemma PayloadAtMost(e: Event)
    ensures PayloadLength(e) <= PixelBytes(e)
    ensures PixelBytes(e) < U32_SPAN ==> PayloadLength(e) == PixelBytes(e)
  {
    ProductNonNegative(e.w, e.h);
    ScaleMonotone(e.h, Stride(e), 2 * e.w);
    assert e.h * (2 * e.w) == 2 * (e.w * e.h);
    if PixelBytes(e) < U32_SPAN {
      if e.h > 0 {
        ScaleMonotone(2 * e.w, 1, e.h);
        assert Stride(e) == 2 * e.w;
      }
    }
  }

  function PrintFields(e: Event, stride: u32, payloadLen: u32): (b: seq<byte>)
    ensures |b| == RECORD
  {
    Little(8, e.timestamp) + Little(4, e.frameNumber) + Little(4, e.x) + Little(4, e.y) + Little(4, e.w)
    + Little(4, e.h) + Little(4, stride) + Little(4, payloadLen)
  }

  function Fields(e: Event): (b: seq<byte>)
    ensures |b| == RECORD
  {
    PrintFields(e, Stride(e), PayloadLength(e))
  }

  function PrintEvent(e: Event): seq<byte>
    requires |e.pixels| == PixelBytes(e)
  {
    PayloadAtMost(e);
    Fields(e) + e.pixels[..PayloadLength(e)]
  }

  function PrintEvents(es: seq<Event>): seq<byte>
    requires forall i :: 0 <= i < |es| ==> |es[i].pixels| == PixelBytes(es[i])
  {
    if es == [] then [] else PrintEvent(es[0]) + PrintEvents(es[1..])
  }

  function PrintHeader(width: u32, height: u32, count: u32): (b: seq<byte>)
    ensures |b| == HEADER
  {
    MAGIC + Little(4, VERSION) + Little(4, width) + Little(4, height) + Little(4, FORMAT) + Little(4, count)
  }

  /** None when the count does not fit its field. */
  function Print(s: Stream): Option<seq<byte>>
    requires Tight(s)
  {
    if |s.events| > U32_MAX then None
    else Some(PrintHeader(s.width, s.height, |s.events|) + PrintEvents(s.events))
  }

  // ---------------------------------------------------------------- parsing

  function U32At(b: seq<byte>, at: nat): u32
    requires at + 4 <= |b|
  {
    Spans();
    Value(b[at..at + 4])
  }

  function U64At(b: seq<byte>, at: nat): u64
    requires at + 8 <= |b|
  {
    Spans();
    Value(b[at..at + 8])
  }

  function PayloadAt(b: seq<byte>): nat
    requires |b| >= RECORD
  {
    U32At(b, 32)
  }

  function ParseEvent(b: seq<byte>): Option<Event> {
    if |b| < RECORD || |b| - RECORD < PayloadAt(b) then None
    else Some(Event(U64At(b, 0), U32At(b, 8), U32At(b, 12), U32At(b, 16), U32At(b, 20), U32At(b, 24),
                    b[RECORD..RECORD + PayloadAt(b)]))
  }

  function ParseEvents(b: seq<byte>, count: nat): Option<seq<Event>> {
    if count == 0 then Some([]) else
    match ParseEvent(b)
    case None => None
    case Some(e) =>
      match ParseEvents(b[RECORD + PayloadAt(b)..], count - 1)
      case None => None
      case Some(rest) => Some([e] + rest)
  }

  function Parse(b: seq<byte>): Option<Stream> {
    if |b| < HEADER || b[..4] != MAGIC || U32At(b, 4) != VERSION || U32At(b, 16) != FORMAT then None
    else
      match ParseEvents(b[HEADER..], U32At(b, 20))
      case None => None
      case Some(events) => Some(Stream(U32At(b, 8), U32At(b, 12), events))
  }

  // ---------------------------------------------------------------- they undo each other

  lemma EightPieces<T>(
    a: seq<T>, b: seq<T>, c: seq<T>, d: seq<T>, e: seq<T>, f: seq<T>, g: seq<T>, h: seq<T>, rest: seq<T>)
    requires |a| == 8 && |b| == |c| == |d| == |e| == |f| == |g| == |h| == 4
    ensures var s := a + b + c + d + e + f + g + h + rest;
            && s[0..8] == a && s[8..12] == b && s[12..16] == c && s[16..20] == d && s[20..24] == e && s[24..28] == f
            && s[28..32] == g && s[32..36] == h
  {
  }

  lemma SixPieces<T>(a: seq<T>, b: seq<T>, c: seq<T>, d: seq<T>, e: seq<T>, f: seq<T>, rest: seq<T>)
    requires |a| == |b| == |c| == |d| == |e| == |f| == 4
    ensures var s := a + b + c + d + e + f + rest;
            && s[..4] == a && s[4..8] == b && s[8..12] == c && s[12..16] == d && s[16..20] == e && s[20..24] == f
            && s[24..] == rest
  {
  }

  lemma FieldsParse(e: Event, rest: seq<byte>)
    ensures var b := Fields(e) + rest;
            && U64At(b, 0) == e.timestamp && U32At(b, 8) == e.frameNumber && U32At(b, 12) == e.x && U32At(b, 16) == e.y
            && U32At(b, 20) == e.w && U32At(b, 24) == e.h && U32At(b, 28) == e.w * 2 % U32_SPAN
            && U32At(b, 32) == PayloadAt(b) == PayloadLength(e)
  {
    Spans();
    ValueOfLittle(8, e.timestamp);
    ValueOfLittle(4, e.frameNumber);
    ValueOfLittle(4, e.x);
    ValueOfLittle(4, e.y);
    ValueOfLittle(4, e.w);
    ValueOfLittle(4, e.h);
    ValueOfLittle(4, Stride(e));
    ValueOfLittle(4, PayloadLength(e));
    EightPieces(Little(8, e.timestamp), Little(4, e.frameNumber), Little(4, e.x), Little(4, e.y), Little(4, e.w),
                Little(4, e.h), Little(4, Stride(e)), Little(4, PayloadLength(e)), rest);
  }

  /** The file begins with FBCB, version 1, the dimensions, format 0 and the number of events. */
  lemma FileBegins(s: Stream)
    requires Tight(s) && |s.events| <= U32_MAX
    ensures var b := Print(s).value;
            && |b| >= 24 && b[..4] == [0x46, 0x42, 0x43, 0x42] && U32At(b, 4) == 1
            && U32At(b, 8) == s.width && U32At(b, 12) == s.height && U32At(b, 16) == 0 && U32At(b, 20) == |s.events|
  {
    HeaderParses(s.width, s.height, |s.events|, PrintEvents(s.events));
  }

  /** What the file keeps of an event. */
  function Stored(e: Event): Event
    requires |e.pixels| == PixelBytes(e)
  {
    PayloadAtMost(e);
    e.(pixels := e.pixels[..PayloadLength(e)])
  }

  function StoredEvents(es: seq<Event>): (r: seq<Event>)
    requires forall i :: 0 <= i < |es| ==> |es[i].pixels| == PixelBytes(es[i])
    ensures |r| == |es|
  {
    if es == [] then [] else [Stored(es[0])] + StoredEvents(es[1..])
  }

  lemma EventParses(e: Event, rest: seq<byte>)
    requires |e.pixels| == PixelBytes(e)
    ensures var b := PrintEvent(e) + rest;
            && ParseEvent(b) == Some(Stored(e)) && |PrintEvent(e)| == RECORD + PayloadAt(b)
            && b[RECORD + PayloadAt(b)..] == rest
  {
    PayloadAtMost(e);
    var pixels := e.pixels[..PayloadLength(e)];
    var b := PrintEvent(e) + rest;
    assert b == Fields(e) + (pixels + rest);
    FieldsParse(e, pixels + rest);
    assert b[RECORD..RECORD + |pixels|] == pixels;
  }

  lemma {:induction false} EventsParse(es: seq<Event>, rest: seq<byte>)
    requires forall i :: 0 <= i < |es| ==> |es[i].pixels| == PixelBytes(es[i])
    ensures ParseEvents(PrintEvents(es) + rest, |es|) == Some(StoredEvents(es))
  {
    if es != [] {
      assert PrintEvents(es) + rest == PrintEvent(es[0]) + (PrintEvents(es[1..]) + rest);
      EventParses(es[0], PrintEvents(es[1..]) + rest);
      EventsParse(es[1..], rest);
    }
  }

  lemma HeaderParses(width: u32, height: u32, count: u32, rest: seq<byte>)
    ensures var b := PrintHeader(width, height, count) + rest;
            && b[..4] == MAGIC && U32At(b, 4) == VERSION && U32At(b, 8) == width && U32At(b, 12) == height
            && U32At(b, 16) == FORMAT && U32At(b, 20) == count && b[HEADER..] == rest
  {
    Spans();
    ValueOfLittle(4, VERSION);
    ValueOfLittle(4, width);
    ValueOfLittle(4, height);
    ValueOfLittle(4, FORMAT);
    ValueOfLittle(4, count);
    SixPieces(MAGIC, Little(4, VERSION), Little(4, width), Little(4, height), Little(4, FORMAT), Little(4, count),
              rest);
  }

  /** Reading what was written gives the stream with every event's pixels cut to the 32-bit length. */
  lemma ReadBack(s: Stream)
    requires Tight(s) && |s.events| <= U32_MAX
    ensures Parse(Print(s).value) == Some(s.(events := StoredEvents(s.events)))
  {
    HeaderParses(s.width, s.height, |s.events|, PrintEvents(s.events));
    EventsParse(s.events, []);
    assert PrintEvents(s.events) + [] == PrintEvents(s.events);
  }

  lemma {:induction false} StoredIsWhole(es: seq<Event>)
    requires forall i :: 0 <= i < |es| ==> |es[i].pixels| == PixelBytes(es[i])
    ensures StoredEvents(es) == es <==> forall i :: 0 <= i < |es| ==> PixelBytes(es[i]) < U32_SPAN
  {
    if es != [] {
      PayloadAtMost(es[0]);
      StoredIsWhole(es[1..]);
      assert es == [es[0]] + es[1..];
      assert StoredEvents(es)[0] == Stored(es[0]) && StoredEvents(es)[1..] == StoredEvents(es[1..]);
      assert Stored(es[0]) == es[0] <==> PayloadLength(es[0]) == |es[0].pixels|;
    }
  }

  /**
   * The parser undoes the printer, for any number of events that fits the count field: the same stream
   * comes back if and only if every event's pixels occupy fewer than 2^32 bytes.
   */
  lemma RoundTrip(s: Stream)
    requires Tight(s) && |s.events| <= U32_MAX
    ensures Parse(Print(s).value) == Some(s) <==> forall i :: 0 <= i < |s.events| ==> PixelBytes(s.events[i]) < U32_SPAN
  {
    ReadBack(s);
    StoredIsWhole(s.events);
  }

  /** One event of 65536 by 32768 pixels is 2^32 bytes, which the writer counts as none. */
  lemma HugeEventIsCut()
    ensures var e := Event(0, 0, 0, 0, 0x1_0000, 0x8000, seq(0x1_0000_0000, _ => 0));
            var s := Stream(0x1_0000, 0x8000, [e]);
            Tight(s) && Parse(Print(s).value) != Some(s)
  {
    var e := Event(0, 0, 0, 0, 0x1_0000, 0x8000, seq(0x1_0000_0000, _ => 0));
    var s := Stream(0x1_0000, 0x8000, [e]);
    assert PixelBytes(s.events[0]) == U32_SPAN;
    RoundTrip(s);
  }

  lemma PrefixOfEvent(e: Event, b: seq<byte>)
    requires |e.pixels| == PixelBytes(e) && b < PrintEvent(e)
    ensures ParseEvent(b) == None
  {
    PayloadAtMost(e);
    if |b| >= RECORD {
      assert b[..RECORD] == Fields(e);
      var rest := b[RECORD..];
      assert b == Fields(e) + rest;
      FieldsParse(e, rest);
    }
  }

  /** A proper prefix of two pieces is one of the first, or the first and one of the second. */
  lemma PrefixOfBoth<T>(b: seq<T>, first: seq<T>, second: seq<T>)
    requires b < first + second
    ensures if |b| < |first| then b < first else b == first + b[|first|..] && b[|first|..] < second
  {
    var s := first + second;
    assert b == s[..|b|];
    if |b| < |first| {
      assert b == first[..|b|];
    } else {
      assert b[..|first|] == first && b[|first|..] == second[..|b| - |first|];
    }
  }

  lemma {:induction false} PrefixOfEvents(es: seq<Event>, b: seq<byte>)
    requires (forall i :: 0 <= i < |es| ==> |es[i].pixels| == PixelBytes(es[i])) && b < PrintEvents(es)
    ensures ParseEvents(b, |es|) == None
  {
    var first := PrintEvent(es[0]);
    PrefixOfBoth(b, first, PrintEvents(es[1..]));
    if |b| < |first| {
      PrefixOfEvent(es[0], b);
    } else {
      EventParses(es[0], b[|first|..]);
      PrefixOfEvents(es[1..], b[|first|..]);
    }
  }

  /** Every proper prefix of a written file is rejected. */
  lemma PrefixRejected(s: Stream, b: seq<byte>)
    requires Tight(s) && |s.events| <= U32_MAX && b < Print(s).value
    ensures Parse(b) == None
  {
    PrefixOfBoth(b, PrintHeader(s.width, s.height, |s.events|), PrintEvents(s.events));
    if |b| >= HEADER {
      HeaderParses(s.width, s.height, |s.events|, b[HEADER..]);
      PrefixOfEvents(s.events, b[HEADER..]);
    }
  }

  // ---------------------------------------------------------------- writing and reading

  /** The record and payload of one event. */
  method WriteEvent(e: Event) returns (record: seq<byte>)
    requires |e.pixels| == PixelBytes(e)
    ensures record == PrintEvent(e)
  {
    var stride: u32 := e.w * 2 % U32_SPAN;
    PayloadAtMost(e);
    ProductNonNegative(e.h, stride);
    var payloadLen: u32 := e.h * stride % U32_SPAN;
    record := PrintFields(e, stride, payloadLen) + e.pixels[..payloadLen];
  }

  /** capture_write_fbcb: the file is emptied on opening, also when the count turns out too large. */
  method WriteFbcb(s: Stream) returns (ok: bool, file: seq<byte>)
    requires Tight(s)
    ensures ok == Print(s).Some? && file == if ok then Print(s).value else []
  {
    file := [];
    if |s.events| > U32_MAX {
      return false, [];
    }
    var es := s.events;
    file := file + MAGIC + Little(4, VERSION) + Little(4, s.width) + Little(4, s.height) + Little(4, FORMAT)
      + Little(4, |es|);
    ghost var header := PrintHeader(s.width, s.height, |es|);
    assert file == header;
    assert es[0..] == es;
    for i := 0 to |es|
      invariant file + PrintEvents(es[i..]) == header + PrintEvents(es)
    {
      assert es[i..][0] == es[i] && es[i..][1..] == es[i + 1..];
      var record := WriteEvent(es[i]);
      Assoc(file, record, PrintEvents(es[i + 1..]));
      file := file + record;
    }
    ok := true;
  }

  /** A file being read: fread returns what is left when that is less than asked for. */
  class InputFile {
    const data: seq<byte>
    var pos: nat

    ghost predicate Valid()
      reads this
    {
      pos <= |data|
    }

    constructor (data: seq<byte>)
      ensures Valid() && this.data == data && pos == 0
    {
      this.data := data;
      pos := 0;
    }

    method Read(n: nat) returns (got: seq<byte>)
      requires Valid()
      modifies this
      ensures Valid() && pos == Min(old(pos) + n, |data|) && got == data[old(pos)..pos]
    {
      var end := Min(pos + n, |data|);
      got := data[pos..end];
      pos := end;
    }

    /** One field of n bytes, seen from `start`; None at the end of the file. */
    method ReadField(n: nat, ghost start: nat) returns (v: Option<nat>)
      requires Valid() && start <= pos
      modifies this
      ensures Valid() && pos == Min(old(pos) + n, |data|)
      ensures var b, at := data[start..], old(pos) - start;
              v == if at + n <= |b| then Some(Value(b[at..at + n])) else None
    {
      var got := Read(n);
      assert |got| == n ==> got == data[start..][old(pos) - start..old(pos) - start + n];
      v := if |got| == n then Some(Value(got)) else None;
    }

    /** The fixed fields of an event, without pixels, and the number of bytes that follow. */
    method ReadRecord() returns (e: Option<Event>, payloadLen: nat)
      requires Valid()
      modifies this
      ensures var b := data[old(pos)..];
              if |b| < RECORD then Valid() && e == None
              else
                && pos == old(pos) + RECORD <= |data| && payloadLen == PayloadAt(b)
                && e == Some(Event(U64At(b, 0), U32At(b, 8), U32At(b, 12), U32At(b, 16), U32At(b, 20), U32At(b, 24),
                                    []))
    {
      Spans();
      ghost var start := pos;
      var timestamp := ReadField(8, start);
      if timestamp.None? { return None, 0; }
      var frameNumber := ReadField(4, start);
      if frameNumber.None? { return None, 0; }
      var x := ReadField(4, start);
      if x.None? { return None, 0; }
      var y := ReadField(4, start);
      if y.None? { return None, 0; }
      var w := ReadField(4, start);
      if w.None? { return None, 0; }
      var h := ReadField(4, start);
      if h.None? { return None, 0; }
      var stride := ReadField(4, start);
      if stride.None? { return None, 0; }
      var length := ReadField(4, start);
      if length.None? { return None, 0; }
      e := Some(Event(timestamp.value, frameNumber.value, x.value, y.value, w.value, h.value, []));
      payloadLen := length.value;
    }

    /** The loop body of capture_read_fbcb: the fields, then as many bytes as the last field says. */
    method ReadEvent() returns (e: Option<Event>)
      requires Valid()
      modifies this
      ensures Valid() && e == ParseEvent(data[old(pos)..])
      ensures e.Some? ==> data[pos..] == data[old(pos)..][RECORD + PayloadAt(data[old(pos)..])..]
    {
      ghost var b := data[pos..];
      var record, payloadLen := ReadRecord();
      if record.None? { return None; }
      assert |b| - RECORD == |data| - pos;
      var pixels := Read(payloadLen);
      if |pixels| != payloadLen { return None; }
      assert pixels == b[RECORD..RECORD + payloadLen];
      e := Some(record.value.(pixels := pixels));
    }

    method ReadHeader() returns (header: Option<(u32, u32, u32)>)
      requires Valid() && pos == 0
      modifies this
      ensures Valid()
      ensures var b := data;
              header == if |b| < HEADER || b[..4] != MAGIC || U32At(b, 4) != VERSION || U32At(b, 16) != FORMAT then None
                        else Some((U32At(b, 8), U32At(b, 12), U32At(b, 20)))
      ensures header.Some? ==> pos == HEADER
    {
      Spans();
      assert data[0..] == data;
      var magic := Read(4);
      if |magic| != 4 || magic != MAGIC { return None; }
      var version := ReadField(4, 0);
      if version.None? || version.value != VERSION { return None; }
      var width := ReadField(4, 0);
      if width.None? { return None; }
      var height := ReadField(4, 0);
      if height.None? { return None; }
      var format := ReadField(4, 0);
      if format.None? || format.value != FORMAT { return None; }
      var count := ReadField(4, 0);
      if count.None? { return None; }
      header := Some((width.value, height.value, count.value));
    }
  }

  function Prepend(events: seq<Event>, more: Option<seq<Event>>): Option<seq<Event>> {
    match more case None => None case Some(es) => Some(events + es)
  }

  lemma PrependNothing(more: Option<seq<Event>>)
    ensures Prepend([], more) == more
  {
    if more.Some? {
      assert [] + more.value == more.value;
    }
  }

  lemma PrependNext(events: seq<Event>, b: seq<byte>, count: nat)
    requires count > 0 && ParseEvent(b).Some?
    ensures Prepend(events, ParseEvents(b, count))
         == Prepend(events + [ParseEvent(b).value], ParseEvents(b[RECORD + PayloadAt(b)..], count - 1))
  {
    var more := ParseEvents(b[RECORD + PayloadAt(b)..], count - 1);
    if more.Some? {
      var e := ParseEvent(b).value;
      assert events + ([e] + more.value) == (events + [e]) + more.value;
    }
  }

  method ReadEvents(file: InputFile, count: nat) returns (read: Option<seq<Event>>)
    requires file.Valid()
    modifies file
    ensures read == ParseEvents(file.data[old(file.pos)..], count)
  {
    var events: seq<Event> := [];
    ghost var parsed := ParseEvents(file.data[file.pos..], count);
    PrependNothing(parsed);
    for i := 0 to count
      invariant file.Valid() && parsed == Prepend(events, ParseEvents(file.data[file.pos..], count - i))
    {
      ghost var b := file.data[file.pos..];
      var e := file.ReadEvent();
      if e.None? { return None; }
      PrependNext(events, b, count - i);
      events := events + [e.value];
    }
    assert parsed == Some(events) by { assert events + [] == events; }
    read := Some(events);
  }

  /** capture_read_fbcb. */
  method ReadFbcb(file: InputFile) returns (s: Option<Stream>)
    requires file.Valid() && file.pos == 0
    modifies file
    ensures s == Parse(file.data)
  {
    var header := file.ReadHeader();
    if header.None? { return None; }
    var (width, height, count) := header.value;
    var events := ReadEvents(file, count);
    if events.None? { return None; }
    s := Some(Stream(width, height, events.value));
  }
}
