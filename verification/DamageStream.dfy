/**
 * The damage stream of the corpus tools: frames are cut into tiles, and each frame contributes one event
 * per tile that differs from the frame before. Frames are row-major, as in memory.
 */
module DamageStream {
  import opened Arith
  import opened Bytes
  import opened Pixels
  import opened Streams

  // ---------------------------------------------------------------- pixels and rectangles of a frame

  datatype Rect = Rect(x: nat, y: nat, w: nat, h: nat)

  datatype DamageEvent = DamageEvent(timestamp: u64, frameNumber: u32, rect: Rect, pixels: Frame)

  lemma IndexInside(w: nat, h: nat, x: nat, y: nat)
    requires x < w && y < h
    ensures 0 <= y * w + x < w * h && (y * w + x) / w == y && (y * w + x) % w == x
  {
    ProductNonNegative(y, w);
    ScaleMonotone(w, y + 1, h);
    assert w * (y + 1) == y * w + w;
    DivModUnique(y * w + x, w, y, x);
  }

  lemma IndexSplits(w: nat, h: nat, i: nat)
    requires i < w * h
    ensures w > 0 && i / w < h && i % w < w && (i / w) * w + i % w == i
  {
    if i / w >= h {
      ScaleMonotone(w, h, i / w);
    }
  }

  lemma QuotientIs(x: nat, d: nat, q: nat)
    requires d > 0
    ensures x / d == q <==> q * d <= x < q * d + d
  {
    QuotientAtLeast(x, d, q);
    QuotientAtLeast(x, d, q + 1);
    assert (q + 1) * d == q * d + d;
  }

  /** The line pixel i is on. */
  function LineOf(w: nat, i: nat): nat
    requires w > 0
  {
    QuotientAtLeast(i, w, 0);
    i / w
  }

  function At(f: Frame, w: nat, h: nat, x: nat, y: nat): pixel
    requires |f| == w * h && x < w && y < h
  {
    IndexInside(w, h, x, y);
    f[y * w + x]
  }

  predicate Within(r: Rect, w: nat, h: nat) {
    r.x + r.w <= w && r.y + r.h <= h
  }

  predicate Covers(r: Rect, x: nat, y: nat) {
    r.x <= x < r.x + r.w && r.y <= y < r.y + r.h
  }

  function CropAt(f: Frame, w: nat, h: nat, r: Rect, j: nat): pixel
    requires |f| == w * h && Within(r, w, h) && j < r.w * r.h
  {
    IndexSplits(r.w, r.h, j);
    At(f, w, h, r.x + j % r.w, r.y + j / r.w)
  }

  /** The pixels of a rectangle, packed tightly. */
  function Crop(f: Frame, w: nat, h: nat, r: Rect): (p: Frame)
    requires |f| == w * h && Within(r, w, h)
    ensures |p| == r.w * r.h
  {
    ProductNonNegative(r.w, r.h);
    seq(r.w * r.h, j requires 0 <= j < r.w * r.h => CropAt(f, w, h, r, j))
  }

  // ---------------------------------------------------------------- replaying

  /** What an event writes to pixel i, if anything; one without the right number of pixels is dropped. */
  function Written(w: nat, h: nat, e: DamageEvent, i: nat): Option<pixel>
    requires i < w * h
  {
    IndexSplits(w, h, i);
    var r := e.rect;
    if |e.pixels| == r.w * r.h && Covers(r, i % w, i / w) then
      Some(At(e.pixels, r.w, r.h, i % w - r.x, i / w - r.y))
    else None
  }

  function Or(written: Option<pixel>, before: pixel): pixel {
    if written.Some? then written.value else before
  }

  function Drawn(canvas: Frame, w: nat, h: nat, e: DamageEvent): (c: Frame)
    requires |canvas| == w * h
    ensures |c| == |canvas|
  {
    seq(w * h, i requires 0 <= i < w * h =>
      Or(Written(w, h, e, i), canvas[i]))
  }

  function Replay(canvas: Frame, w: nat, h: nat, events: seq<DamageEvent>): (c: Frame)
    requires |canvas| == w * h
    ensures |c| == |canvas|
  {
    if events == [] then canvas else
    Drawn(Replay(canvas, w, h, events[..|events| - 1]), w, h, events[|events| - 1])
  }

  function PixelWriter(w: nat, h: nat, i: nat): DamageEvent -> Option<pixel>
    requires i < w * h
  {
    (e: DamageEvent) => Written(w, h, e, i)
  }

  lemma {:induction false} ReplayedPixel(canvas: Frame, w: nat, h: nat, events: seq<DamageEvent>, i: nat)
    requires |canvas| == w * h && i < w * h
    ensures Replay(canvas, w, h, events)[i]
         == Or(Last(PixelWriter(w, h, i), events), canvas[i])
  {
    if events != [] {
      ReplayedPixel(canvas, w, h, events[..|events| - 1], i);
    }
  }

  lemma WrittenLast(canvas: Frame, w: nat, h: nat, events: seq<DamageEvent>, i: nat, p: pixel)
    requires |canvas| == w * h && i < w * h && Last(PixelWriter(w, h, i), events) == Some(p)
    ensures Replay(canvas, w, h, events)[i] == p
  {
    ReplayedPixel(canvas, w, h, events, i);
  }

  lemma AtIndex(f: Frame, w: nat, h: nat, i: nat)
    requires |f| == w * h && i < w * h
    ensures w > 0 && i / w < h && At(f, w, h, i % w, i / w) == f[i]
  {
    IndexSplits(w, h, i);
  }

  /** A rectangle cut out of a frame writes exactly the pixels it covers. */
  lemma CropWrites(f: Frame, w: nat, h: nat, e: DamageEvent, i: nat)
    requires w > 0 && |f| == w * h && i < w * h && Within(e.rect, w, h) && e.pixels == Crop(f, w, h, e.rect)
    ensures Written(w, h, e, i) == if Covers(e.rect, i % w, LineOf(w, i)) then Some(f[i]) else None
  {
    AtIndex(f, w, h, i);
    var r, x, y := e.rect, i % w, i / w;
    if Covers(r, x, y) {
      IndexInside(r.w, r.h, x - r.x, y - r.y);
      assert At(e.pixels, r.w, r.h, x - r.x, y - r.y) == CropAt(f, w, h, r, (y - r.y) * r.w + (x - r.x));
    }
  }

  // ---------------------------------------------------------------- tiles

  /** tiles_across, in 32 bits. */
  function TilesAcross(dim: u32, tile: u32): nat
    requires tile > 0
  {
    (dim + tile - 1) % U32_SPAN / tile
  }

  function TileStart(i: nat, tile: u32): u32 {
    ProductNonNegative(i, tile);
    i * tile % U32_SPAN
  }

  function TileSize(start: u32, dim: u32, tile: u32): int {
    if (start + tile) % U32_SPAN <= dim then tile else dim - start
  }

  /** Where the rounding up does not wrap. */
  predicate Fits(dim: u32, tile: u32) {
    dim + tile <= U32_SPAN
  }

  /** Tiles start inside the dimension and are cut off at its end; none of the other sums wraps. */
  lemma TileIsExact(dim: u32, tile: u32, i: nat)
    requires tile > 0 && i < TilesAcross(dim, tile)
    ensures 0 <= i * tile < dim && TileStart(i, tile) == i * tile
    ensures TileSize(i * tile, dim, tile) == Min(tile, dim - i * tile) > 0
  {
    var rounded := (dim + tile - 1) % U32_SPAN;
    ProductNonNegative(i, tile);
    QuotientAtLeast(rounded, tile, i + 1);
    assert (i + 1) * tile == i * tile + tile;
  }

  function TileRect(w: u32, h: u32, tile: u32, tx: nat, ty: nat): (r: Rect)
    requires tile > 0 && tx < TilesAcross(w, tile) && ty < TilesAcross(h, tile)
    ensures Within(r, w, h) && r.w > 0 && r.h > 0
  {
    TileIsExact(w, tile, tx);
    TileIsExact(h, tile, ty);
    var x0, y0 := TileStart(tx, tile), TileStart(ty, tile);
    Rect(x0, y0, TileSize(x0, w, tile), TileSize(y0, h, tile))
  }

  lemma InInterval(dim: u32, tile: u32, i: nat, x: nat)
    requires tile > 0 && i < TilesAcross(dim, tile) && x < dim
    ensures i * tile <= x < i * tile + Min(tile, dim - i * tile) <==> x / tile == i
  {
    TileIsExact(dim, tile, i);
    QuotientIs(x, tile, i);
  }

  /** Tiles partition what they cover: a pixel is in the tile of its quotients and in no other. */
  lemma TilesPartition(w: u32, h: u32, tile: u32, tx: nat, ty: nat, x: nat, y: nat)
    requires tile > 0 && tx < TilesAcross(w, tile) && ty < TilesAcross(h, tile) && x < w && y < h
    ensures Covers(TileRect(w, h, tile, tx, ty), x, y) <==> x / tile == tx && y / tile == ty
  {
    TileIsExact(w, tile, tx);
    TileIsExact(h, tile, ty);
    InInterval(w, tile, tx, x);
    InInterval(h, tile, ty, y);
  }

  /** They cover every position if the rounding up does not wrap. */
  lemma TileReaches(dim: u32, tile: u32, x: nat)
    requires tile > 0 && x < dim && Fits(dim, tile)
    ensures 0 <= x / tile < TilesAcross(dim, tile)
  {
    var q := x / tile;
    QuotientAtLeast(x, tile, q);
    assert (q + 1) * tile == q * tile + tile <= dim + tile - 1;
    QuotientAtLeast(dim + tile - 1, tile, q + 1);
  }

  /** If it wraps, they miss the last one. */
  lemma TilesMiss(dim: u32, tile: u32)
    requires tile > 0 && dim > 0 && !Fits(dim, tile)
    ensures TilesAcross(dim, tile) <= (dim - 1) / tile
  {
    var rounded, n := dim + tile - 1 - U32_SPAN, TilesAcross(dim, tile);
    assert (dim + tile - 1) % U32_SPAN == rounded;
    QuotientAtLeast(rounded, tile, n);
    QuotientAtLeast(dim - 1, tile, n);
  }

  // ---------------------------------------------------------------- the stream

  /** Frames of one size, the tile size and the time between frames. */
  datatype Recording = Recording(frames: seq<Frame>, w: u32, h: u32, tile: u32, interval: u64)

  ghost predicate Sound(r: Recording) {
    r.tile > 0 && forall f :: 0 <= f < |r.frames| ==> |r.frames[f]| == r.w * r.h
  }

  function TilesX(r: Recording): nat
    requires r.tile > 0
  {
    TilesAcross(r.w, r.tile)
  }

  function TilesY(r: Recording): nat
    requires r.tile > 0
  {
    TilesAcross(r.h, r.tile)
  }

  /** Row yy of a rectangle, in memory. */
  function RowSlice(f: Frame, w: nat, h: nat, rect: Rect, yy: nat): (s: seq<pixel>)
    requires |f| == w * h && Within(rect, w, h) && rect.w > 0 && yy < rect.h
    ensures |s| == rect.w && forall k :: 0 <= k < rect.w ==> s[k] == At(f, w, h, rect.x + k, rect.y + yy)
  {
    IndexInside(w, h, rect.x + rect.w - 1, rect.y + yy);
    var off := (rect.y + yy) * w + rect.x;
    IndexInside(w, h, rect.x, rect.y + yy);
    f[off..off + rect.w]
  }

  predicate RowsDiffer(a: Frame, b: Frame, w: nat, h: nat, rect: Rect, rows: nat)
    requires |a| == |b| == w * h && Within(rect, w, h) && rect.w > 0 && rows <= rect.h
  {
    rows > 0 && (RowsDiffer(a, b, w, h, rect, rows - 1)
                 || RowSlice(a, w, h, rect, rows - 1) != RowSlice(b, w, h, rect, rows - 1))
  }

  lemma {:induction false} RowsAgree(a: Frame, b: Frame, w: nat, h: nat, rect: Rect, rows: nat, x: nat, y: nat)
    requires |a| == |b| == w * h && Within(rect, w, h) && rect.w > 0 && rows <= rect.h
    requires !RowsDiffer(a, b, w, h, rect, rows) && rect.x <= x < rect.x + rect.w && rect.y <= y < rect.y + rows
    ensures At(a, w, h, x, y) == At(b, w, h, x, y)
  {
    if y == rect.y + rows - 1 {
      assert RowSlice(a, w, h, rect, rows - 1)[x - rect.x] == RowSlice(b, w, h, rect, rows - 1)[x - rect.x];
    } else {
      RowsAgree(a, b, w, h, rect, rows - 1, x, y);
    }
  }

  lemma {:induction false} RowsDifferSomewhere(a: Frame, b: Frame, w: nat, h: nat, rect: Rect, rows: nat)
    requires |a| == |b| == w * h && Within(rect, w, h) && rect.w > 0 && rows <= rect.h
    requires RowsDiffer(a, b, w, h, rect, rows)
    ensures exists x: nat, y: nat :: x < w && y < h && Covers(rect, x, y) && At(a, w, h, x, y) != At(b, w, h, x, y)
  {
    var s, t := RowSlice(a, w, h, rect, rows - 1), RowSlice(b, w, h, rect, rows - 1);
    if s != t {
      var k :| 0 <= k < rect.w && s[k] != t[k];
      var x, y := rect.x + k, rect.y + rows - 1;
      assert Covers(rect, x, y) && At(a, w, h, x, y) != At(b, w, h, x, y);
    } else {
      RowsDifferSomewhere(a, b, w, h, rect, rows - 1);
    }
  }

  predicate InGrid(r: Recording, f: nat, tx: nat, ty: nat) {
    r.tile > 0 && f < |r.frames| && tx < TilesX(r) && ty < TilesY(r)
  }

  function TileOf(r: Recording, tx: nat, ty: nat): Rect
    requires InGrid(r, 0, tx, ty)
  {
    TileRect(r.w, r.h, r.tile, tx, ty)
  }

  ghost predicate Changed(r: Recording, f: nat, tx: nat, ty: nat)
    requires Sound(r) && InGrid(r, f, tx, ty)
  {
    f == 0 || RowsDiffer(r.frames[f], r.frames[f - 1], r.w, r.h, TileOf(r, tx, ty), TileOf(r, tx, ty).h)
  }

  function Timestamp(r: Recording, f: nat): u64 {
    ProductNonNegative(f, r.interval);
    f * r.interval % U64_SPAN
  }

  function FrameNumber(f: nat): (n: u32)
    ensures f < U32_SPAN ==> n == f
  {
    f % U32_SPAN
  }

  ghost function EventOf(r: Recording, f: nat, tx: nat, ty: nat): (e: DamageEvent)
    requires Sound(r) && InGrid(r, f, tx, ty)
    ensures e.frameNumber == FrameNumber(f)
  {
    var rect := TileOf(r, tx, ty);
    DamageEvent(Timestamp(r, f), FrameNumber(f), rect, Crop(r.frames[f], r.w, r.h, rect))
  }

  ghost function TileEvents(r: Recording, f: nat, tx: nat, ty: nat): (es: seq<DamageEvent>)
    ensures |es| <= 1
    ensures es != [] ==> es[0].frameNumber == FrameNumber(f)
  {
    if Sound(r) && InGrid(r, f, tx, ty) && Changed(r, f, tx, ty) then [EventOf(r, f, tx, ty)] else []
  }

  ghost function GridOf(r: Recording): Grid<DamageEvent> {
    (f: nat, ty: nat, tx: nat) => TileEvents(r, f, tx, ty)
  }

  ghost function FrameEvents(r: Recording, f: nat): seq<DamageEvent>
    requires r.tile > 0
  {
    FrameOf(GridOf(r), TilesX(r), TilesY(r), f)
  }

  /** The stream of the first n frames. */
  ghost function Stream(r: Recording, n: nat): seq<DamageEvent>
    requires r.tile > 0
  {
    StreamOf(GridOf(r), TilesX(r), TilesY(r), n)
  }

  // ---------------------------------------------------------------- replaying the stream

  /** Pixel i of the frame lies in tile (qx, qy). */
  predicate PixelOf(r: Recording, i: nat, qx: nat, qy: nat) {
    r.tile > 0 && r.w > 0 && i < r.w * r.h && qx == i % r.w / r.tile && qy == i / r.w / r.tile
  }

  /** What frame f emits for pixel i of tile (qx, qy): its value, when the tile changed. */
  ghost function EmissionOf(r: Recording, i: nat, qx: nat, qy: nat): nat -> Option<pixel> {
    (f: nat) =>
      if Sound(r) && InGrid(r, f, qx, qy) && Changed(r, f, qx, qy) && i < r.w * r.h then Some(r.frames[f][i]) else None
  }

  function TargetOf(r: Recording, i: nat): nat -> pixel {
    (f: nat) => if f < |r.frames| && i < |r.frames[f]| then r.frames[f][i] else 0
  }

  lemma TargetIs(r: Recording, i: nat, f: nat)
    requires f < |r.frames| && i < |r.frames[f]|
    ensures TargetOf(r, i)(f) == r.frames[f][i]
  {
  }

  lemma TileWrites(r: Recording, f: nat, tx: nat, ty: nat, i: nat, qx: nat, qy: nat)
    requires Sound(r) && InGrid(r, f, tx, ty) && PixelOf(r, i, qx, qy)
    ensures Last(PixelWriter(r.w, r.h, i), GridOf(r)(f, ty, tx))
         == if tx == qx && ty == qy then EmissionOf(r, i, qx, qy)(f) else None
  {
    IndexSplits(r.w, r.h, i);
    TilesPartition(r.w, r.h, r.tile, tx, ty, i % r.w, i / r.w);
    if Changed(r, f, tx, ty) {
      CropWrites(r.frames[f], r.w, r.h, EventOf(r, f, tx, ty), i);
    }
  }

  lemma WrittenOnce(r: Recording, f: nat, i: nat, qx: nat, qy: nat)
    requires Sound(r) && f < |r.frames| && PixelOf(r, i, qx, qy)
    ensures OnlyFrom(PixelWriter(r.w, r.h, i), GridOf(r), TilesX(r), TilesY(r), f, qx, qy, EmissionOf(r, i, qx, qy)(f))
  {
    forall ty: nat, tx: nat | ty < TilesY(r) && tx < TilesX(r)
      ensures Last(PixelWriter(r.w, r.h, i), GridOf(r)(f, ty, tx))
           == if tx == qx && ty == qy then EmissionOf(r, i, qx, qy)(f) else None
    {
      TileWrites(r, f, tx, ty, i, qx, qy);
    }
  }

  /** A tile that is not emitted has the pixels of the frame before. */
  lemma SamePixel(r: Recording, f: nat, i: nat, qx: nat, qy: nat)
    requires Sound(r) && PixelOf(r, i, qx, qy) && InGrid(r, f, qx, qy) && !Changed(r, f, qx, qy)
    ensures r.frames[f][i] == r.frames[f - 1][i]
  {
    var rect, x, y := TileOf(r, qx, qy), i % r.w, i / r.w;
    AtIndex(r.frames[f], r.w, r.h, i);
    AtIndex(r.frames[f - 1], r.w, r.h, i);
    TilesPartition(r.w, r.h, r.tile, qx, qy, x, y);
    RowsAgree(r.frames[f], r.frames[f - 1], r.w, r.h, rect, rect.h, x, y);
  }

  lemma UnchangedPixel(r: Recording, f: nat, i: nat, qx: nat, qy: nat)
    requires Sound(r) && PixelOf(r, i, qx, qy) && InGrid(r, f, qx, qy)
    ensures Follows(EmissionOf(r, i, qx, qy), TargetOf(r, i), f)
  {
    if !Changed(r, f, qx, qy) {
      SamePixel(r, f, i, qx, qy);
    }
  }

  lemma AllWrittenOnce(r: Recording, n: nat, i: nat, qx: nat, qy: nat)
    requires Sound(r) && n <= |r.frames| && PixelOf(r, i, qx, qy)
    ensures forall f: nat :: f < n ==>
              OnlyFrom(PixelWriter(r.w, r.h, i), GridOf(r), TilesX(r), TilesY(r), f, qx, qy,
                       EmissionOf(r, i, qx, qy)(f))
  {
    var writer, emission := PixelWriter(r.w, r.h, i), EmissionOf(r, i, qx, qy);
    forall f: nat | f < n
      ensures OnlyFrom(writer, GridOf(r), TilesX(r), TilesY(r), f, qx, qy, emission(f))
    {
      WrittenOnce(r, f, i, qx, qy);
    }
  }

  lemma AllFollow(r: Recording, n: nat, i: nat, qx: nat, qy: nat)
    requires Sound(r) && n <= |r.frames| && PixelOf(r, i, qx, qy) && qx < TilesX(r) && qy < TilesY(r)
    ensures forall f: nat :: f < n ==> Follows(EmissionOf(r, i, qx, qy), TargetOf(r, i), f)
  {
    forall f: nat | f < n
      ensures Follows(EmissionOf(r, i, qx, qy), TargetOf(r, i), f)
    {
      UnchangedPixel(r, f, i, qx, qy);
    }
  }

  /** What the first n frames of the stream leave in a pixel the tiles reach: that of the last frame. */
  lemma ReachedPixel(r: Recording, n: nat, i: nat, qx: nat, qy: nat)
    requires Sound(r) && 0 < n <= |r.frames| && PixelOf(r, i, qx, qy) && qx < TilesX(r) && qy < TilesY(r)
    ensures Last(PixelWriter(r.w, r.h, i), Stream(r, n)) == Some(r.frames[n - 1][i])
  {
    AllWrittenOnce(r, n, i, qx, qy);
    AllFollow(r, n, i, qx, qy);
    StreamHits(PixelWriter(r.w, r.h, i), GridOf(r), TilesX(r), TilesY(r), n, qx, qy,
               EmissionOf(r, i, qx, qy), TargetOf(r, i));
    TargetIs(r, i, n - 1);
  }

  lemma MissedPixel(r: Recording, n: nat, i: nat, qx: nat, qy: nat)
    requires Sound(r) && n <= |r.frames| && PixelOf(r, i, qx, qy) && !(qx < TilesX(r) && qy < TilesY(r))
    ensures Last(PixelWriter(r.w, r.h, i), Stream(r, n)) == None
  {
    AllWrittenOnce(r, n, i, qx, qy);
    StreamMisses(PixelWriter(r.w, r.h, i), GridOf(r), TilesX(r), TilesY(r), n, qx, qy, EmissionOf(r, i, qx, qy));
  }

  const NUMBER: DamageEvent -> nat := (e: DamageEvent) => e.frameNumber

  lemma TileNumbered(r: Recording, f: nat, tx: nat, ty: nat, e: DamageEvent)
    requires e in TileEvents(r, f, tx, ty) && f < U32_SPAN
    ensures e.frameNumber == f
  {
    assert e == TileEvents(r, f, tx, ty)[0];
  }

  lemma FrameNumbered(r: Recording, f: nat)
    requires r.tile > 0 && f < U32_SPAN
    ensures Numbered(NUMBER, FrameEvents(r, f), f)
  {
    var events := FrameEvents(r, f);
    forall i | 0 <= i < |events|
      ensures NUMBER(events[i]) == f
    {
      var tx, ty := FromFrame(GridOf(r), TilesX(r), TilesY(r), f, events[i]);
      TileNumbered(r, f, tx, ty, events[i]);
    }
  }

  /** The whole stream of a recording. */
  ghost function Events(r: Recording): seq<DamageEvent>
    requires r.tile > 0
  {
    Stream(r, |r.frames|)
  }

  lemma LocatedX(r: Recording, i: nat)
    requires r.tile > 0 && i < r.w * r.h
    ensures r.w > 0 && 0 <= i % r.w / r.tile
    ensures Fits(r.w, r.tile) ==> i % r.w / r.tile < TilesX(r)
  {
    IndexSplits(r.w, r.h, i);
    var x := i % r.w;
    QuotientAtLeast(x, r.tile, 0);
    if Fits(r.w, r.tile) {
      TileReaches(r.w, r.tile, x);
    }
  }

  lemma LocatedY(r: Recording, i: nat)
    requires r.tile > 0 && i < r.w * r.h
    ensures r.w > 0 && 0 <= i / r.w / r.tile
    ensures Fits(r.h, r.tile) ==> i / r.w / r.tile < TilesY(r)
  {
    IndexSplits(r.w, r.h, i);
    var y := i / r.w;
    QuotientAtLeast(y, r.tile, 0);
    if Fits(r.h, r.tile) {
      TileReaches(r.h, r.tile, y);
    }
  }

  lemma Located(r: Recording, i: nat) returns (qx: nat, qy: nat)
    requires r.tile > 0 && i < r.w * r.h
    ensures PixelOf(r, i, qx, qy)
    ensures Fits(r.w, r.tile) ==> qx < TilesX(r)
    ensures Fits(r.h, r.tile) ==> qy < TilesY(r)
  {
    LocatedX(r, i);
    LocatedY(r, i);
    qx, qy := i % r.w / r.tile, i / r.w / r.tile;
  }

  lemma ReplayedStreamPixel(r: Recording, n: nat, canvas: Frame, i: nat, qx: nat, qy: nat)
    requires Sound(r) && 0 < n <= |r.frames| && |canvas| == r.w * r.h
    requires PixelOf(r, i, qx, qy) && qx < TilesX(r) && qy < TilesY(r)
    ensures Replay(canvas, r.w, r.h, Stream(r, n))[i] == r.frames[n - 1][i]
  {
    ReachedPixel(r, n, i, qx, qy);
    WrittenLast(canvas, r.w, r.h, Stream(r, n), i, r.frames[n - 1][i]);
  }

  lemma ReplayedStream(r: Recording, n: nat, canvas: Frame)
    requires Sound(r) && 0 < n <= |r.frames| && |canvas| == r.w * r.h
    requires Fits(r.w, r.tile) && Fits(r.h, r.tile)
    ensures Replay(canvas, r.w, r.h, Stream(r, n)) == r.frames[n - 1]
  {
    forall i | 0 <= i < r.w * r.h
      ensures Replay(canvas, r.w, r.h, Stream(r, n))[i] == r.frames[n - 1][i]
    {
      var qx, qy := Located(r, i);
      ReplayedStreamPixel(r, n, canvas, i, qx, qy);
    }
  }

  lemma MissedStaysPut(r: Recording, n: nat, canvas: Frame, i: nat, qx: nat, qy: nat)
    requires Sound(r) && n <= |r.frames| && |canvas| == r.w * r.h
    requires PixelOf(r, i, qx, qy) && !(qx < TilesX(r) && qy < TilesY(r))
    ensures Replay(canvas, r.w, r.h, Stream(r, n))[i] == canvas[i]
  {
    MissedPixel(r, n, i, qx, qy);
    ReplayedPixel(canvas, r.w, r.h, Stream(r, n), i);
  }

  /** Replaying the events with numbers up to f onto any canvas gives exactly the frame. */
  ghost predicate Reproduces(events: seq<DamageEvent>, w: nat, h: nat, f: nat, frame: Frame) {
    forall canvas: Frame :: |canvas| == w * h ==> Replay(canvas, w, h, UpTo(NUMBER, events, f)) == frame
  }

  ghost predicate ReplaysTo(r: Recording, f: nat)
    requires Sound(r) && f < |r.frames|
  {
    Reproduces(Events(r), r.w, r.h, f, r.frames[f])
  }

  /** Frame numbers do not wrap for up to 2^32 frames: selecting by number is cutting the stream. */
  lemma UpToFrame(r: Recording, f: nat)
    requires r.tile > 0 && f < |r.frames| <= U32_SPAN
    ensures UpTo(NUMBER, Events(r), f) == Stream(r, f + 1)
  {
    forall k: nat | k < |r.frames|
      ensures Numbered(NUMBER, Frames(GridOf(r), TilesX(r), TilesY(r))(k), k)
    {
      FrameNumbered(r, k);
    }
    UpToCuts(NUMBER, Frames(GridOf(r), TilesX(r), TilesY(r)), f, |r.frames|);
  }

  /** The last pixel, which no tile reaches when the rounding up wraps. */
  lemma LastPixel(r: Recording) returns (i: nat, qx: nat, qy: nat)
    requires r.tile > 0 && r.w > 0 && r.h > 0 && !(Fits(r.w, r.tile) && Fits(r.h, r.tile))
    ensures PixelOf(r, i, qx, qy) && !(qx < TilesX(r) && qy < TilesY(r))
  {
    var w, h: nat := r.w, r.h;
    IndexInside(w, h, w - 1, h - 1);
    i := (h - 1) * w + (w - 1);
    qx, qy := Located(r, i);
    if !Fits(r.w, r.tile) {
      TilesMiss(r.w, r.tile);
    } else {
      TilesMiss(r.h, r.tile);
    }
  }

  lemma MissedDiffers(r: Recording, f: nat, i: nat, qx: nat, qy: nat)
    requires Sound(r) && f < |r.frames| <= U32_SPAN
    requires PixelOf(r, i, qx, qy) && !(qx < TilesX(r) && qy < TilesY(r))
    ensures !ReplaysTo(r, f)
  {
    var canvas := r.frames[f][i := !r.frames[f][i]];
    UpToFrame(r, f);
    MissedStaysPut(r, f + 1, canvas, i, qx, qy);
    assert Replay(canvas, r.w, r.h, UpTo(NUMBER, Events(r), f)) != r.frames[f];
  }

  lemma FittingReplay(r: Recording, f: nat, canvas: Frame)
    requires Sound(r) && f < |r.frames| <= U32_SPAN && Fits(r.w, r.tile) && Fits(r.h, r.tile)
    requires |canvas| == r.w * r.h
    ensures Replay(canvas, r.w, r.h, UpTo(NUMBER, Events(r), f)) == r.frames[f]
  {
    UpToFrame(r, f);
    ReplayedStream(r, f + 1, canvas);
  }

  lemma FittingAgrees(r: Recording, f: nat)
    requires Sound(r) && f < |r.frames| <= U32_SPAN && Fits(r.w, r.tile) && Fits(r.h, r.tile)
    ensures ReplaysTo(r, f)
  {
    forall canvas: Frame | |canvas| == r.w * r.h
      ensures Replay(canvas, r.w, r.h, UpTo(NUMBER, Events(r), f)) == r.frames[f]
    {
      FittingReplay(r, f, canvas);
    }
  }

  /**
   * The stream agrees with the frames: for up to 2^32 frames of any size, replaying the events with frame
   * numbers up to f onto any initial canvas gives exactly frame f - if and only if neither dimension
   * plus the tile size exceeds 2^32 (tiles_across adds them in 32 bits).
   */
  lemma StreamAgrees(r: Recording, f: nat)
    requires Sound(r) && f < |r.frames| <= U32_SPAN && r.w > 0 && r.h > 0
    ensures ReplaysTo(r, f) <==> Fits(r.w, r.tile) && Fits(r.h, r.tile)
  {
    if Fits(r.w, r.tile) && Fits(r.h, r.tile) {
      FittingAgrees(r, f);
    } else {
      var i, qx, qy := LastPixel(r);
      MissedDiffers(r, f, i, qx, qy);
    }
  }

  /** Two pixels and a tile of 2^32 - 1: the number of tiles across wraps to none, and nothing is ever drawn. */
  lemma HugeTileMisses()
    ensures var r := Recording([[0, 0]], 2, 1, 0xFFFF_FFFF, 0);
            Sound(r) && !ReplaysTo(r, 0)
  {
    StreamAgrees(Recording([[0, 0]], 2, 1, 0xFFFF_FFFF, 0), 0);
  }

  /** An empty frame has nothing to draw. */
  lemma EmptyAgrees(r: Recording, f: nat)
    requires Sound(r) && f < |r.frames| && (r.w == 0 || r.h == 0)
    ensures ReplaysTo(r, f)
  {
    assert r.w * r.h == 0;
  }

  // ---------------------------------------------------------------- the order of the events

  /** An event of the stream is that of a tile. */
  lemma EventShape(r: Recording, e: DamageEvent) returns (f: nat, tx: nat, ty: nat)
    requires Sound(r) && e in Events(r)
    ensures InGrid(r, f, tx, ty) && e == EventOf(r, f, tx, ty)
  {
    var frames := Frames(GridOf(r), TilesX(r), TilesY(r));
    InJoined(frames, |r.frames|, e);
    f :| f < |r.frames| && e in frames(f);
    tx, ty := FromFrame(GridOf(r), TilesX(r), TilesY(r), f, e);
    assert e in TileEvents(r, f, tx, ty);
  }

  /**
   * Every event carries the time of its frame in 64 bits, the number of its frame, and a tile of the grid
   * cut off at the frame's edge with the frame's pixels in it.
   */
  lemma EventsAreTimed(r: Recording, e: DamageEvent)
    requires Sound(r) && |r.frames| <= U32_SPAN && e in Events(r)
    ensures e.frameNumber < |r.frames| && 0 <= e.frameNumber * r.interval
    ensures e.timestamp == e.frameNumber * r.interval % U64_SPAN
    ensures Within(e.rect, r.w, r.h) && e.rect.x % r.tile == 0 && e.rect.y % r.tile == 0
    ensures e.pixels == Crop(r.frames[e.frameNumber], r.w, r.h, e.rect)
  {
    var f, tx, ty := EventShape(r, e);
    assert e.frameNumber == f;
    TileIsExact(r.w, r.tile, tx);
    TileIsExact(r.h, r.tile, ty);
    DivModUnique(tx * r.tile, r.tile, tx, 0);
    DivModUnique(ty * r.tile, r.tile, ty, 0);
    ProductNonNegative(f, r.interval);
  }

  /** By frame, then by tile row, then by tile column. */
  predicate Precedes(a: DamageEvent, b: DamageEvent) {
    a.frameNumber < b.frameNumber
    || (a.frameNumber == b.frameNumber && (a.rect.y < b.rect.y || (a.rect.y == b.rect.y && a.rect.x < b.rect.x)))
  }

  const BEFORE: (DamageEvent, DamageEvent) -> bool := (a: DamageEvent, b: DamageEvent) => Precedes(a, b)

  lemma TilesInOrder(dim: u32, tile: u32, i: nat, j: nat)
    requires tile > 0 && i < j < TilesAcross(dim, tile)
    ensures TileStart(i, tile) < TileStart(j, tile)
  {
    TileIsExact(dim, tile, i);
    TileIsExact(dim, tile, j);
    ScaleMonotone(tile, i + 1, j);
    assert tile * (i + 1) == tile * i + tile;
  }

  /** Where an event of tile (tx, ty) of frame f stands. */
  lemma TileStands(r: Recording, f: nat, tx: nat, ty: nat, e: DamageEvent)
    requires e in TileEvents(r, f, tx, ty) && f < U32_SPAN
    ensures r.tile > 0 && tx < TilesX(r) && ty < TilesY(r)
    ensures e.frameNumber == f && e.rect.x == TileStart(tx, r.tile) && e.rect.y == TileStart(ty, r.tile)
  {
    TileNumbered(r, f, tx, ty, e);
    assert e == EventOf(r, f, tx, ty);
  }

  lemma RowInOrder(r: Recording, f: nat, ty: nat)
    requires r.tile > 0 && f < U32_SPAN
    ensures Ordered(BEFORE, RowOf(GridOf(r), TilesX(r), f, ty))
  {
    var part := TilesOfRow(GridOf(r), f, ty);
    forall k: nat, l: nat, a, b | k < l < TilesX(r) && a in part(k) && b in part(l)
      ensures BEFORE(a, b)
    {
      TileStands(r, f, k, ty, a);
      TileStands(r, f, l, ty, b);
      TilesInOrder(r.w, r.tile, k, l);
    }
    JoinedInOrder(BEFORE, part, TilesX(r));
  }

  /** Where an event of tile row ty stands. */
  lemma RowStands(r: Recording, f: nat, ty: nat, e: DamageEvent)
    requires r.tile > 0 && f < U32_SPAN && ty < TilesY(r) && e in RowOf(GridOf(r), TilesX(r), f, ty)
    ensures e.frameNumber == f && e.rect.y == TileStart(ty, r.tile)
  {
    InJoined(TilesOfRow(GridOf(r), f, ty), TilesX(r), e);
    var i: nat :| i < TilesX(r) && e in TilesOfRow(GridOf(r), f, ty)(i);
    TileStands(r, f, i, ty, e);
  }

  lemma RowsInOrder(r: Recording, f: nat, k: nat, l: nat, a: DamageEvent, b: DamageEvent)
    requires r.tile > 0 && f < U32_SPAN && k < l < TilesY(r)
    requires a in RowOf(GridOf(r), TilesX(r), f, k) && b in RowOf(GridOf(r), TilesX(r), f, l)
    ensures Precedes(a, b)
  {
    RowStands(r, f, k, a);
    RowStands(r, f, l, b);
    TilesInOrder(r.h, r.tile, k, l);
  }

  lemma FrameInOrder(r: Recording, f: nat)
    requires r.tile > 0 && f < U32_SPAN
    ensures Ordered(BEFORE, FrameEvents(r, f))
  {
    var part := RowsOfFrame(GridOf(r), TilesX(r), f);
    forall k: nat | k < TilesY(r)
      ensures Ordered(BEFORE, part(k))
    {
      RowInOrder(r, f, k);
    }
    forall k: nat, l: nat, a, b | k < l < TilesY(r) && a in part(k) && b in part(l)
      ensures BEFORE(a, b)
    {
      RowsInOrder(r, f, k, l, a, b);
    }
    JoinedInOrder(BEFORE, part, TilesY(r));
  }

  /** The stream of up to 2^32 frames is in order: frames, tile rows, tile columns, no tile twice. */
  lemma EventsInOrder(r: Recording)
    requires r.tile > 0 && |r.frames| <= U32_SPAN
    ensures Ordered(BEFORE, Events(r))
  {
    var part := Frames(GridOf(r), TilesX(r), TilesY(r));
    forall k: nat | k < |r.frames|
      ensures Ordered(BEFORE, part(k))
    {
      FrameInOrder(r, k);
    }
    forall k: nat, l: nat, a, b | k < l < |r.frames| && a in part(k) && b in part(l)
      ensures BEFORE(a, b)
    {
      FrameNumbered(r, k);
      FrameNumbered(r, l);
      assert NUMBER(a) == k && NUMBER(b) == l;
    }
    JoinedInOrder(BEFORE, part, |r.frames|);
  }

  // ---------------------------------------------------------------- which tiles, and how many

  lemma SameTile(r: Recording, tx: nat, ty: nat, ux: nat, uy: nat)
    requires InGrid(r, 0, tx, ty) && InGrid(r, 0, ux, uy) && TileOf(r, tx, ty) == TileOf(r, ux, uy)
    ensures tx == ux && ty == uy
  {
    var rect := TileOf(r, tx, ty);
    TilesPartition(r.w, r.h, r.tile, tx, ty, rect.x, rect.y);
    TilesPartition(r.w, r.h, r.tile, ux, uy, rect.x, rect.y);
  }

  ghost predicate TileDiffers(r: Recording, f: nat, rect: Rect)
    requires Sound(r) && 0 < f < |r.frames|
  {
    exists x: nat, y: nat :: x < r.w && y < r.h && Covers(rect, x, y)
                             && At(r.frames[f], r.w, r.h, x, y) != At(r.frames[f - 1], r.w, r.h, x, y)
  }

  /** The first frame emits every tile; a later frame emits a tile if and only if a pixel of it changed. */
  lemma EmittedIffChanged(r: Recording, f: nat, tx: nat, ty: nat)
    requires Sound(r) && InGrid(r, f, tx, ty)
    ensures (exists e :: e in FrameEvents(r, f) && e.rect == TileOf(r, tx, ty))
            <==> f == 0 || TileDiffers(r, f, TileOf(r, tx, ty))
  {
    var rect := TileOf(r, tx, ty);
    if Changed(r, f, tx, ty) {
      ToFrame(GridOf(r), TilesX(r), TilesY(r), f, tx, ty, EventOf(r, f, tx, ty));
      assert EventOf(r, f, tx, ty).rect == rect;
      if f > 0 {
        RowsDifferSomewhere(r.frames[f], r.frames[f - 1], r.w, r.h, rect, rect.h);
      }
    } else {
      if e :| e in FrameEvents(r, f) && e.rect == rect {
        var ux, uy := FromFrame(GridOf(r), TilesX(r), TilesY(r), f, e);
        SameTile(r, tx, ty, ux, uy);
        assert false;
      }
      forall x: nat, y: nat | x < r.w && y < r.h && Covers(rect, x, y)
        ensures At(r.frames[f], r.w, r.h, x, y) == At(r.frames[f - 1], r.w, r.h, x, y)
      {
        RowsAgree(r.frames[f], r.frames[f - 1], r.w, r.h, rect, rect.h, x, y);
      }
    }
  }

  /** The number of events allocated. */
  function MaxEvents(r: Recording): nat
    requires r.tile > 0
  {
    ProductNonNegative(TilesY(r), TilesX(r));
    ProductNonNegative(|r.frames|, TilesY(r) * TilesX(r));
    |r.frames| * (TilesY(r) * TilesX(r))
  }

  /** The stream never outgrows its allocation. */
  lemma AllocationSuffices(r: Recording)
    requires r.tile > 0
    ensures |Events(r)| <= MaxEvents(r)
  {
    ProductNonNegative(TilesY(r), TilesX(r));
    forall f: nat | f < |r.frames|
      ensures |Frames(GridOf(r), TilesX(r), TilesY(r))(f)| <= TilesY(r) * TilesX(r)
    {
      FrameLength(GridOf(r), TilesX(r), TilesY(r), f);
    }
    JoinedLength(Frames(GridOf(r), TilesX(r), TilesY(r)), |r.frames|, TilesY(r) * TilesX(r));
  }

  lemma AcrossAtMost(dim: u32, tile: u32)
    requires tile > 0
    ensures TilesAcross(dim, tile) <= dim
  {
    var n := TilesAcross(dim, tile);
    if n > 0 {
      TileIsExact(dim, tile, n - 1);
      ScaleMonotone(n - 1, 1, tile);
    }
  }

  /** Its size does not wrap either: it is at most one event per pixel of the frames. */
  lemma AllocationIsExact(r: Recording)
    requires r.tile > 0
    ensures 0 <= MaxEvents(r) <= |r.frames| * (r.h * r.w)
  {
    AcrossAtMost(r.w, r.tile);
    AcrossAtMost(r.h, r.tile);
    ScaleMonotone(TilesY(r), TilesX(r), r.w);
    ScaleMonotone(r.w, TilesY(r), r.h);
    ScaleMonotone(|r.frames|, TilesY(r) * TilesX(r), r.h * r.w);
  }

  // ---------------------------------------------------------------- the loops

  /** Compares a tile of frame f with the frame before, row by row. */
  method TileChanged(r: Recording, f: nat, tx: nat, ty: nat) returns (changed: bool)
    requires Sound(r) && InGrid(r, f, tx, ty)
    ensures changed == Changed(r, f, tx, ty)
  {
    changed := f == 0;
    if !changed {
      var rect := TileOf(r, tx, ty);
      var yy := 0;
      while yy < rect.h && !changed
        invariant yy <= rect.h && changed == RowsDiffer(r.frames[f], r.frames[f - 1], r.w, r.h, rect, yy)
      {
        if RowSlice(r.frames[f], r.w, r.h, rect, yy) != RowSlice(r.frames[f - 1], r.w, r.h, rect, yy) {
          changed := true;
        }
        yy := yy + 1;
      }
      if changed {
        StillDiffers(r.frames[f], r.frames[f - 1], r.w, r.h, rect, yy, rect.h);
      }
    }
  }

  lemma {:induction false} StillDiffers(a: Frame, b: Frame, w: nat, h: nat, rect: Rect, rows: nat, more: nat)
    requires |a| == |b| == w * h && Within(rect, w, h) && rect.w > 0 && rows <= more <= rect.h
    requires RowsDiffer(a, b, w, h, rect, rows)
    ensures RowsDiffer(a, b, w, h, rect, more)
  {
    if rows < more {
      StillDiffers(a, b, w, h, rect, rows, more - 1);
    }
  }

  lemma RowOfCrop(f: Frame, w: nat, h: nat, rect: Rect, yy: nat, k: nat)
    requires |f| == w * h && Within(rect, w, h) && rect.w > 0 && yy < rect.h && k < rect.w
    ensures 0 <= yy * rect.w && yy * rect.w + k < rect.w * rect.h
    ensures RowSlice(f, w, h, rect, yy)[k] == Crop(f, w, h, rect)[yy * rect.w + k]
  {
    IndexInside(rect.w, rect.h, k, yy);
    assert Crop(f, w, h, rect)[yy * rect.w + k] == CropAt(f, w, h, rect, yy * rect.w + k);
  }

  lemma NextRow(f: Frame, w: nat, h: nat, rect: Rect, yy: nat)
    requires |f| == w * h && Within(rect, w, h) && rect.w > 0 && yy < rect.h
    ensures 0 <= yy * rect.w <= (yy + 1) * rect.w <= rect.w * rect.h
    ensures Crop(f, w, h, rect)[..(yy + 1) * rect.w] == Crop(f, w, h, rect)[..yy * rect.w] + RowSlice(f, w, h, rect, yy)
  {
    IndexInside(rect.w, rect.h, rect.w - 1, yy);
    IndexInside(rect.w, rect.h, 0, yy);
    var at, row := yy * rect.w, RowSlice(f, w, h, rect, yy);
    assert (yy + 1) * rect.w == at + rect.w;
    forall k | 0 <= k < rect.w
      ensures Crop(f, w, h, rect)[at + k] == row[k]
    {
      RowOfCrop(f, w, h, rect, yy, k);
    }
  }

  /** Copies a tile row by row. */
  method CropTile(f: Frame, w: nat, h: nat, rect: Rect) returns (pixels: Frame)
    requires |f| == w * h && Within(rect, w, h) && rect.w > 0
    ensures pixels == Crop(f, w, h, rect)
  {
    pixels := [];
    ProductNonNegative(rect.w, rect.h);
    for yy := 0 to rect.h
      invariant 0 <= yy * rect.w <= rect.w * rect.h && pixels == Crop(f, w, h, rect)[..yy * rect.w]
    {
      NextRow(f, w, h, rect, yy);
      pixels := pixels + RowSlice(f, w, h, rect, yy);
    }
    assert rect.h * rect.w == |Crop(f, w, h, rect)|;
  }

  method EmitTile(r: Recording, f: nat, tx: nat, ty: nat) returns (es: seq<DamageEvent>)
    requires Sound(r) && InGrid(r, f, tx, ty)
    ensures es == TileEvents(r, f, tx, ty)
  {
    var changed := TileChanged(r, f, tx, ty);
    if !changed {
      return [];
    }
    var rect := TileOf(r, tx, ty);
    var pixels := CropTile(r.frames[f], r.w, r.h, rect);
    ProductNonNegative(f, r.interval);
    es := [DamageEvent(f * r.interval % U64_SPAN, f % U32_SPAN, rect, pixels)];
  }

  method EmitRow(r: Recording, f: nat, ty: nat) returns (es: seq<DamageEvent>)
    requires Sound(r) && f < |r.frames| && ty < TilesY(r)
    ensures es == RowOf(GridOf(r), TilesX(r), f, ty)
  {
    es := [];
    for tx := 0 to TilesX(r)
      invariant es == Joined(TilesOfRow(GridOf(r), f, ty), tx)
    {
      var event := EmitTile(r, f, tx, ty);
      es := es + event;
    }
  }

  method EmitFrame(r: Recording, f: nat) returns (es: seq<DamageEvent>)
    requires Sound(r) && f < |r.frames|
    ensures es == FrameEvents(r, f)
  {
    es := [];
    for ty := 0 to TilesY(r)
      invariant es == Joined(RowsOfFrame(GridOf(r), TilesX(r), f), ty)
    {
      var row := EmitRow(r, f, ty);
      es := es + row;
    }
  }

  /** capture_make_damage_stream_from_frames. */
  method MakeDamageStream(r: Recording) returns (ok: bool, events: seq<DamageEvent>)
    requires Sound(r)
    ensures ok == (r.frames != [])
    ensures ok ==> events == Events(r) && |events| <= MaxEvents(r)
  {
    events := [];
    if |r.frames| == 0 {
      return false, [];
    }
    for f := 0 to |r.frames|
      invariant events == Stream(r, f)
    {
      var es := EmitFrame(r, f);
      events := events + es;
    }
    AllocationSuffices(r);
    ok := true;
  }
}
