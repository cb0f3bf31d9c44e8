/**
 * Damage streams through the file: a recording's stream is written, read back and replayed. The file
 * holds the pixels as the bytes they occupy in memory.
 */
module CaptureFile {
  import opened Arith
  import opened Bytes
  import opened Pixels
  import opened Streams
  import opened DamageStream
  import Fbcb

  // ---------------------------------------------------------------- pixels in memory

  function Number(b: u8): byte { b as int }

  function Octet(n: byte): u8 { n as u8 }

  lemma OctetOfNumber(b: u8)
    ensures Octet(Number(b)) == b
  {
  }

  function Memory(f: Frame): (b: seq<byte>)
    ensures |b| == 2 * |f|
  {
    seq(2 * |f|, i requires 0 <= i < 2 * |f| => Number(ToBytes(f)[i]))
  }

  /** The bytes of a pixel in the file: its low eight bits, then its high ones. */
  lemma MemoryBytes(f: Frame, i: nat)
    requires i < |f|
    ensures Memory(f)[2 * i] == ((f[i] & 0xff) as u8) as int && Memory(f)[2 * i + 1] == ((f[i] >> 8) as u8) as int
  {
    HighByteIs(f[i]);
    assert Memory(f)[2 * i] == Number(ToBytes(f)[2 * i]) && Memory(f)[2 * i + 1] == Number(ToBytes(f)[2 * i + 1]);
  }

  lemma HighByteIs(p: pixel)
    ensures HighByte(p) == (p >> 8) as u8
  {
  }

  function Octets(b: seq<byte>): (o: seq<u8>)
    ensures |o| == |b| / 2 * 2
  {
    seq(|b| / 2 * 2, i requires 0 <= i < |b| / 2 * 2 => Octet(b[i]))
  }

  /** The pixels held by as many bytes. */
  function Loaded(b: seq<byte>): (f: Frame)
    ensures |f| == |b| / 2
  {
    FromBytes(Octets(b))
  }

  lemma LoadedMemory(f: Frame)
    ensures Loaded(Memory(f)) == f
  {
    forall i | 0 <= i < 2 * |f|
      ensures Octets(Memory(f))[i] == ToBytes(f)[i]
    {
      OctetOfNumber(ToBytes(f)[i]);
    }
    assert Octets(Memory(f)) == ToBytes(f);
    FromToBytes(f);
  }

  // ---------------------------------------------------------------- events in the file

  predicate Writable(e: DamageEvent) {
    && e.rect.x <= U32_MAX && e.rect.y <= U32_MAX && e.rect.w <= U32_MAX && e.rect.h <= U32_MAX
    && |e.pixels| == e.rect.w * e.rect.h
  }

  function ToFile(e: DamageEvent): (w: Fbcb.Event)
    requires Writable(e)
    ensures |w.pixels| == Fbcb.PixelBytes(w)
  {
    Fbcb.Event(e.timestamp, e.frameNumber, e.rect.x, e.rect.y, e.rect.w, e.rect.h, Memory(e.pixels))
  }

  function FromFile(w: Fbcb.Event): DamageEvent {
    DamageEvent(w.timestamp, w.frameNumber, Rect(w.x, w.y, w.w, w.h), Loaded(w.pixels))
  }

  /** An event after writing and reading. */
  function Kept(e: DamageEvent): DamageEvent
    requires Writable(e)
  {
    FromFile(Fbcb.Stored(ToFile(e)))
  }

  /** Fewer than 2^32 bytes of pixels. */
  predicate Small(rect: Rect) {
    2 * (rect.w * rect.h) < U32_SPAN
  }

  /** An event comes back unless it is too large; then it has too few pixels for its rectangle. */
  lemma KeptIffSmall(e: DamageEvent)
    requires Writable(e)
    ensures Kept(e).rect == e.rect && Kept(e).frameNumber == e.frameNumber
    ensures if Small(e.rect) then Kept(e) == e else |Kept(e).pixels| < e.rect.w * e.rect.h
  {
    var w := ToFile(e);
    Fbcb.PayloadAtMost(w);
    if Small(e.rect) {
      assert Fbcb.Stored(w) == w;
      LoadedMemory(e.pixels);
    }
  }

  ghost predicate AllWritable(es: seq<DamageEvent>) {
    forall i :: 0 <= i < |es| ==> Writable(es[i])
  }

  function AllToFile(es: seq<DamageEvent>): (ws: seq<Fbcb.Event>)
    requires AllWritable(es)
    ensures |ws| == |es| && forall i :: 0 <= i < |ws| ==> |ws[i].pixels| == Fbcb.PixelBytes(ws[i])
  {
    seq(|es|, i requires 0 <= i < |es| => ToFile(es[i]))
  }

  function AllFromFile(ws: seq<Fbcb.Event>): (es: seq<DamageEvent>)
    ensures |es| == |ws|
  {
    seq(|ws|, i requires 0 <= i < |ws| => FromFile(ws[i]))
  }

  function AllKept(es: seq<DamageEvent>): (ks: seq<DamageEvent>)
    requires AllWritable(es)
    ensures |ks| == |es|
  {
    seq(|es|, i requires 0 <= i < |es| => Kept(es[i]))
  }

  function FileOf(w: u32, h: u32, es: seq<DamageEvent>): Fbcb.Stream
    requires AllWritable(es)
  {
    Fbcb.Stream(w, h, AllToFile(es))
  }

  lemma {:induction false} StoredAt(ws: seq<Fbcb.Event>, i: nat)
    requires i < |ws| && forall k :: 0 <= k < |ws| ==> |ws[k].pixels| == Fbcb.PixelBytes(ws[k])
    ensures Fbcb.StoredEvents(ws)[i] == Fbcb.Stored(ws[i])
  {
    if i > 0 {
      StoredAt(ws[1..], i - 1);
    }
  }

  /** The events read back from the file they were written to; None when the writer or the reader fails. */
  function ThroughFile(w: u32, h: u32, es: seq<DamageEvent>): Option<seq<DamageEvent>>
    requires AllWritable(es)
  {
    match Fbcb.Print(FileOf(w, h, es))
    case None => None
    case Some(file) =>
      match Fbcb.Parse(file)
      case None => None
      case Some(stream) => Some(AllFromFile(stream.events))
  }

  lemma StoredIsKept(es: seq<DamageEvent>)
    requires AllWritable(es)
    ensures AllFromFile(Fbcb.StoredEvents(AllToFile(es))) == AllKept(es)
  {
    var stored := Fbcb.StoredEvents(AllToFile(es));
    forall i | 0 <= i < |es|
      ensures AllFromFile(stored)[i] == AllKept(es)[i]
    {
      StoredAt(AllToFile(es), i);
    }
  }

  /** Writing fails exactly when the count does not fit its field; what is read back is what the file keeps. */
  lemma ReadGivesKept(w: u32, h: u32, es: seq<DamageEvent>)
    requires AllWritable(es)
    ensures ThroughFile(w, h, es) == if |es| <= U32_MAX then Some(AllKept(es)) else None
  {
    if |es| <= U32_MAX {
      Fbcb.ReadBack(FileOf(w, h, es));
      StoredIsKept(es);
    }
  }

  // ---------------------------------------------------------------- the events of a recording

  lemma EventsWritable(r: Recording)
    requires Sound(r)
    ensures AllWritable(Events(r))
  {
    var es := Events(r);
    forall i | 0 <= i < |es|
      ensures Writable(es[i])
    {
      var f, tx, ty := EventShape(r, es[i]);
    }
  }

  /** The largest tile has fewer than 2^32 bytes of pixels. */
  predicate SmallTiles(r: Recording) {
    2 * (Min(r.tile, r.w) * Min(r.tile, r.h)) < U32_SPAN
  }

  lemma TileAtMost(r: Recording, tx: nat, ty: nat)
    requires InGrid(r, 0, tx, ty)
    ensures TileOf(r, tx, ty).w <= Min(r.tile, r.w) && TileOf(r, tx, ty).h <= Min(r.tile, r.h)
  {
    TileIsExact(r.w, r.tile, tx);
    TileIsExact(r.h, r.tile, ty);
  }

  lemma SmallTilesAreSmall(r: Recording, tx: nat, ty: nat)
    requires InGrid(r, 0, tx, ty) && SmallTiles(r)
    ensures Small(TileOf(r, tx, ty))
  {
    var rect := TileOf(r, tx, ty);
    TileAtMost(r, tx, ty);
    ScaleMonotone(rect.w, rect.h, Min(r.tile, r.h));
    ScaleMonotone(Min(r.tile, r.h), rect.w, Min(r.tile, r.w));
  }

  lemma FirstTileIsLargest(r: Recording)
    requires InGrid(r, 0, 0, 0)
    ensures TileOf(r, 0, 0) == Rect(0, 0, Min(r.tile, r.w), Min(r.tile, r.h))
  {
    TileIsExact(r.w, r.tile, 0);
    TileIsExact(r.h, r.tile, 0);
  }

  // ---------------------------------------------------------------- replaying the file

  /** Replaying the recording's stream from the file, up to frame f, onto any canvas gives exactly frame f. */
  ghost predicate FileReplaysTo(r: Recording, f: nat)
    requires Sound(r) && f < |r.frames| && AllWritable(Events(r))
  {
    ThroughFile(r.w, r.h, Events(r)).Some?
    && Reproduces(ThroughFile(r.w, r.h, Events(r)).value, r.w, r.h, f, r.frames[f])
  }

  /** No event writes pixel i. */
  ghost predicate Skips(es: seq<DamageEvent>, w: nat, h: nat, i: nat)
    requires i < w * h
  {
    forall k :: 0 <= k < |es| ==> Written(w, h, es[k], i) == None
  }

  lemma {:induction false} SkippedByPart(es: seq<DamageEvent>, w: nat, h: nat, i: nat, f: nat)
    requires i < w * h && Skips(es, w, h, i)
    ensures Last(PixelWriter(w, h, i), UpTo(NUMBER, es, f)) == None
  {
    if es != [] {
      SkippedByPart(es[..|es| - 1], w, h, i, f);
      var before := UpTo(NUMBER, es[..|es| - 1], f);
      assert (before + [es[|es| - 1]])[..|before|] == before;
    }
  }

  /** A pixel no event writes keeps what the canvas had. */
  lemma SkippedIsLost(es: seq<DamageEvent>, w: nat, h: nat, i: nat, f: nat, frame: Frame)
    requires i < w * h && Skips(es, w, h, i) && |frame| == w * h
    ensures !Reproduces(es, w, h, f, frame)
  {
    var canvas := frame[i := !frame[i]];
    SkippedByPart(es, w, h, i, f);
    ReplayedPixel(canvas, w, h, UpTo(NUMBER, es, f), i);
    assert Replay(canvas, w, h, UpTo(NUMBER, es, f)) != frame;
  }

  lemma NotWritten(w: nat, h: nat, e: DamageEvent, i: nat)
    requires i < w * h && w > 0
    requires |e.pixels| != e.rect.w * e.rect.h || !Covers(e.rect, i % w, LineOf(w, i))
    ensures Written(w, h, e, i) == None
  {
    IndexSplits(w, h, i);
  }

  lemma OtherTile(r: Recording, tx: nat, ty: nat, i: nat, qx: nat, qy: nat)
    requires InGrid(r, 0, tx, ty) && PixelOf(r, i, qx, qy) && !(tx == qx && ty == qy)
    ensures !Covers(TileOf(r, tx, ty), i % r.w, LineOf(r.w, i))
  {
    IndexSplits(r.w, r.h, i);
    TilesPartition(r.w, r.h, r.tile, tx, ty, i % r.w, i / r.w);
  }

  lemma KeptSkipsPixel(r: Recording, e: DamageEvent, tx: nat, ty: nat, i: nat, qx: nat, qy: nat)
    requires InGrid(r, 0, tx, ty) && PixelOf(r, i, qx, qy) && Writable(e) && e.rect == TileOf(r, tx, ty)
    requires tx == qx && ty == qy ==> !Small(TileOf(r, tx, ty))
    ensures Written(r.w, r.h, Kept(e), i) == None
  {
    KeptIffSmall(e);
    if !(tx == qx && ty == qy) {
      OtherTile(r, tx, ty, i, qx, qy);
    }
    NotWritten(r.w, r.h, Kept(e), i);
  }

  /** A pixel outside every tile, or in a tile too large for the file, is skipped by what the file keeps. */
  lemma KeptSkip(r: Recording, i: nat, qx: nat, qy: nat)
    requires Sound(r) && AllWritable(Events(r)) && PixelOf(r, i, qx, qy)
    requires InGrid(r, 0, qx, qy) ==> !Small(TileOf(r, qx, qy))
    ensures Skips(AllKept(Events(r)), r.w, r.h, i)
  {
    var es := Events(r);
    forall k | 0 <= k < |es|
      ensures Written(r.w, r.h, AllKept(es)[k], i) == None
    {
      var f, tx, ty := EventShape(r, es[k]);
      KeptSkipsPixel(r, es[k], tx, ty, i, qx, qy);
    }
  }

  lemma KeptIsLost(r: Recording, f: nat, i: nat, qx: nat, qy: nat)
    requires Sound(r) && AllWritable(Events(r)) && |Events(r)| <= U32_MAX && f < |r.frames|
    requires PixelOf(r, i, qx, qy) && (InGrid(r, 0, qx, qy) ==> !Small(TileOf(r, qx, qy)))
    ensures !FileReplaysTo(r, f)
  {
    KeptSkip(r, i, qx, qy);
    ReadGivesKept(r.w, r.h, Events(r));
    SkippedIsLost(AllKept(Events(r)), r.w, r.h, i, f, r.frames[f]);
  }

  lemma AllKeptIsAll(r: Recording)
    requires Sound(r) && AllWritable(Events(r)) && SmallTiles(r)
    ensures AllKept(Events(r)) == Events(r)
  {
    var es := Events(r);
    forall k | 0 <= k < |es|
      ensures AllKept(es)[k] == es[k]
    {
      var f, tx, ty := EventShape(r, es[k]);
      SmallTilesAreSmall(r, tx, ty);
      KeptIffSmall(es[k]);
    }
  }

  /** The first pixel, in the largest tile. */
  lemma FirstPixel(r: Recording)
    requires r.tile > 0 && r.w > 0 && r.h > 0 && Fits(r.w, r.tile) && Fits(r.h, r.tile)
    ensures PixelOf(r, 0, 0, 0)
  {
    IndexInside(r.w, r.h, 0, 0);
    var qx, qy := Located(r, 0);
  }

  lemma SmallAgrees(r: Recording, f: nat)
    requires Sound(r) && AllWritable(Events(r)) && |Events(r)| <= U32_MAX && f < |r.frames| <= U32_SPAN
    requires r.w > 0 && r.h > 0 && Fits(r.w, r.tile) && Fits(r.h, r.tile) && SmallTiles(r)
    ensures FileReplaysTo(r, f)
  {
    AllKeptIsAll(r);
    ReadGivesKept(r.w, r.h, Events(r));
    StreamAgrees(r, f);
  }

  lemma LargeTileIsLost(r: Recording, f: nat)
    requires Sound(r) && AllWritable(Events(r)) && |Events(r)| <= U32_MAX && f < |r.frames|
    requires r.w > 0 && r.h > 0 && Fits(r.w, r.tile) && Fits(r.h, r.tile) && !SmallTiles(r)
    ensures !FileReplaysTo(r, f)
  {
    FirstPixel(r);
    if InGrid(r, 0, 0, 0) {
      FirstTileIsLargest(r);
    }
    KeptIsLost(r, f, 0, 0, 0);
  }

  lemma UnreachedIsLost(r: Recording, f: nat)
    requires Sound(r) && AllWritable(Events(r)) && |Events(r)| <= U32_MAX && f < |r.frames|
    requires r.w > 0 && r.h > 0 && !(Fits(r.w, r.tile) && Fits(r.h, r.tile))
    ensures !FileReplaysTo(r, f)
  {
    var i, qx, qy := LastPixel(r);
    KeptIsLost(r, f, i, qx, qy);
  }

  lemma TooManyFail(r: Recording, f: nat)
    requires Sound(r) && AllWritable(Events(r)) && |Events(r)| > U32_MAX && f < |r.frames|
    ensures !FileReplaysTo(r, f)
  {
    ReadGivesKept(r.w, r.h, Events(r));
  }

  /**
   * The whole path of the corpus: the stream of a recording is written, read back and replayed up to
   * frame f, onto any canvas. The result is exactly frame f if and only if there are at most 2^32 - 1
   * events, neither dimension plus the tile size exceeds 2^32, and the largest tile has fewer than 2^32
   * bytes of pixels.
   */
  lemma FileAgrees(r: Recording, f: nat)
    requires Sound(r) && f < |r.frames| <= U32_SPAN && r.w > 0 && r.h > 0
    ensures AllWritable(Events(r))
    ensures FileReplaysTo(r, f)
            <==> |Events(r)| <= U32_MAX && Fits(r.w, r.tile) && Fits(r.h, r.tile) && SmallTiles(r)
  {
    EventsWritable(r);
    if |Events(r)| > U32_MAX {
      TooManyFail(r, f);
    } else if !(Fits(r.w, r.tile) && Fits(r.h, r.tile)) {
      UnreachedIsLost(r, f);
    } else if SmallTiles(r) {
      SmallAgrees(r, f);
    } else {
      LargeTileIsLost(r, f);
    }
  }
}
