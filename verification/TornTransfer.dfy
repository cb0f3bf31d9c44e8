/**
 * Transfers from memory that changes meanwhile, as the shadow buffer of the asynchronous worker does. The
 * driver takes the bytes of a rectangle when it prepares it and keeps them in the bulk buffer through all
 * retries, so each rectangle is a snapshot of its own. Such a transfer is one of a constant frame put
 * together from the snapshots, and everything known about those holds of it.
 */
module TornTransfer {
  import opened Arith
  import opened Bytes
  import opened FrameTransfer
  import opened Lz4

  /** What the frame's memory holds when the driver prepares the rectangle with the number. */
  type Snapshots = nat -> seq<byte>

  ghost predicate Shaped(p: Plan, memory: Snapshots) {
    Sound(p) && forall k: nat :: |memory(k)| == |p.frame|
  }

  /** The plan with another frame of the same size. */
  function Over(p: Plan, frame: seq<byte>): (q: Plan)
    requires Sound(p) && |frame| == |p.frame|
    ensures Sound(q)
  {
    p.(frame := frame)
  }

  /** The state after the events when every rectangle comes from its own snapshot. */
  ghost function RunTorn(p: Plan, memory: Snapshots, events: seq<Event>): Option<State>
    requires Shaped(p, memory)
  {
    if events == [] then Some(START) else
    match RunTorn(p, memory, events[..|events| - 1])
    case None => None
    case Some(s) => Step(Over(p, memory(s.rects)), s, events[|events| - 1])
  }

  function RectangleBytes(p: Plan): nat
    requires Sound(p)
  {
    ProductNonNegative(p.line, p.maxRows);
    p.line * p.maxRows
  }

  /** The rectangle byte i belongs to. */
  function RectangleOf(p: Plan, i: nat): nat
    requires Sound(p)
  {
    ScaleUp(p.line, p.maxRows);
    QuotientAtLeast(i, RectangleBytes(p), 0);
    i / RectangleBytes(p)
  }

  /** The frame put together from the snapshots, rectangle by rectangle. */
  ghost function Composite(p: Plan, memory: Snapshots): (frame: seq<byte>)
    requires Shaped(p, memory)
    ensures |frame| == |p.frame|
  {
    seq(|p.frame|, i requires 0 <= i < |p.frame| => memory(RectangleOf(p, i))[i])
  }

  lemma InRectangle(p: Plan, k: nat, i: nat)
    requires Sound(p) && p.line * (p.maxRows * k) <= i < p.line * (p.maxRows * k) + p.line * p.maxRows
    ensures RectangleOf(p, i) == k
  {
    var size := RectangleBytes(p);
    assert size * k == p.line * (p.maxRows * k);
    DivModUnique(i, size, k, i - size * k);
  }

  /** Rectangle k of the composite is that of snapshot k. */
  lemma CompositeRectangle(p: Plan, memory: Snapshots, k: nat, row: nat)
    requires Shaped(p, memory) && row == p.maxRows * k && row < p.height
    ensures Source(Over(p, Composite(p, memory)), row) == Source(Over(p, memory(k)), row)
  {
    var a, b := Over(p, Composite(p, memory)), Over(p, memory(k));
    var from := p.line * row;
    SourceBytes(a, row);
    SourceBytes(b, row);
    ScaleMonotone(p.line, Rows(p, row), p.maxRows);
    forall j | 0 <= j < |Source(a, row)|
      ensures Source(a, row)[j] == Source(b, row)[j]
    {
      InRectangle(p, k, from + j);
    }
  }

  /**
   * Rectangle by rectangle the composite grows by the next bytes of the memory of the moment: the reads
   * of the asynchronous worker, one per rectangle.
   */
  lemma CompositeGrows(p: Plan, memory: Snapshots, k: nat, row: nat)
    requires Shaped(p, memory) && row == p.maxRows * k && row < p.height
    ensures var from, to := p.line * row, p.line * (row + Rows(p, row));
            && 0 <= from <= to <= |p.frame|
            && Composite(p, memory)[..to] == Composite(p, memory)[..from] + memory(k)[from..to]
  {
    var a, b := Over(p, Composite(p, memory)), Over(p, memory(k));
    SourceBytes(a, row);
    SourceBytes(b, row);
    CompositeRectangle(p, memory, k, row);
    var from, to := p.line * row, p.line * (row + Rows(p, row));
    assert a.frame[from..to] == b.frame[from..to];
    assert a.frame[..to] == a.frame[..from] + a.frame[from..to];
  }

  lemma SameStep(a: Plan, b: Plan, s: State, e: Event)
    requires Sound(a) && Sound(b) && b == a.(frame := b.frame)
    requires s.row < a.height ==> Source(a, s.row) == Source(b, s.row)
    ensures Step(a, s, e) == Step(b, s, e)
  {
  }

  /** A transfer from changing memory is one of the composite frame. */
  lemma {:induction false} TornIsComposite(p: Plan, memory: Snapshots, events: seq<Event>)
    requires Shaped(p, memory)
    ensures RunTorn(p, memory, events) == Run(Over(p, Composite(p, memory)), events)
  {
    if events != [] {
      var q, before := Over(p, Composite(p, memory)), events[..|events| - 1];
      TornIsComposite(p, memory, before);
      if Run(q, before).Some? {
        var s := Run(q, before).value;
        PairsTile(q, before);
        if s.row < p.height {
          CompositeRectangle(p, memory, s.rects, s.row);
        }
        SameStep(Over(p, memory(s.rects)), q, s, events[|events| - 1]);
      }
    }
  }

  /**
   * So in every reachable state the completed requests tile the rows done with full rectangles, the
   * retries stay within their bounds, and the device shows those rows as each rectangle's snapshot had them.
   */
  lemma TornPicture(p: Plan, memory: Snapshots, d: Device, events: seq<Event>)
    requires Shaped(p, memory) && Faithful(p.lz) && |d.canvas| == |p.frame| && RunTorn(p, memory, events).Some?
    ensures var s, q := RunTorn(p, memory, events).value, Over(p, Composite(p, memory));
            && s.row <= p.height && Filled(p, s.row, s.rects)
            && Tiles(CompletedRequests(events), p.width, s.row) && |CompletedRequests(events)| == s.rects
            && TrailingAsks(events) <= p.busyRetries + 1 && TrailingBulks(events) <= EAGAIN_RETRIES + 1
            && Play(Screen(p.lz, p.bpp, p.line), d, events).canvas == Shown(q, d.canvas, s, TailArrived(events))
  {
    var q := Over(p, Composite(p, memory));
    TornIsComposite(p, memory, events);
    PairsTile(q, events);
    RetriesCounted(q, events);
    PictureOfRun(q, d, events);
  }

  /** After the last row the device holds the composite, in the least number of rectangles. */
  lemma TornSuccess(p: Plan, memory: Snapshots, d: Device, events: seq<Event>)
    requires Shaped(p, memory) && Faithful(p.lz) && |d.canvas| == |p.frame|
    requires RunTorn(p, memory, events).Some? && RunTorn(p, memory, events).value.row == p.height
    ensures Play(Screen(p.lz, p.bpp, p.line), d, events).canvas == Composite(p, memory)
    ensures |CompletedRequests(events)| == (p.height + p.maxRows - 1) / p.maxRows
  {
    var q := Over(p, Composite(p, memory));
    TornIsComposite(p, memory, events);
    SuccessIsCopy(q, d, events, false, RunTorn(p, memory, events).value.rects);
    PairsTile(q, events);
  }
}
