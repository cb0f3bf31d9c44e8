/**
 * The USB monitor's view of the driver: it records one update per accepted request that a bulk transfer
 * follows, and puts full frames together again from the rectangles they were split into.
 */
module UpdateMonitor {
  import opened Arith
  import opened Bytes
  import opened FrameTransfer

  /** An update: its rectangle, when its bulk transfer started and ended, and its compression ratio. */
  datatype Update = Update(
    x: nat, y: nat, width: nat, height: nat, bulkStart: real, bulkEnd: real, compression: real)

  // ---------------------------------------------------------------- the statistics object

  function Right(updates: seq<Update>): nat {
    if updates == [] then 0 else
    var last := updates[|updates| - 1];
    var before := Right(updates[..|updates| - 1]);
    if last.x + last.width > before then last.x + last.width else before
  }

  function Bottom(updates: seq<Update>): nat {
    if updates == [] then 0 else
    var last := updates[|updates| - 1];
    var before := Bottom(updates[..|updates| - 1]);
    if last.y + last.height > before then last.y + last.height else before
  }

  function Total(merge: seq<Update>): real {
    if merge == [] then 0.0 else Total(merge[..|merge| - 1]) + merge[|merge| - 1].compression
  }

  /** One entry for the pieces of a frame: the first piece, grown to full size, with the mean ratio and the last end. */
  function Merged(width: nat, height: nat, pieces: seq<Update>): Update
    requires pieces != []
  {
    var last := pieces[|pieces| - 1];
    var mean := Total(pieces) / |pieces| as real;
    pieces[0].(width := width, height := height, compression := mean, bulkEnd := last.bulkEnd)
  }

  datatype Scan = Scan(full: seq<Update>, merge: seq<Update>)

  /** What one update does to the entries found and the pieces collected. */
  function ScanStep(width: nat, height: nat, st: Scan, s: Update): Scan {
    if s.x == 0 && s.y == 0 && s.width == width && s.height == height then Scan(st.full + [s], [])
    else if s.x != 0 || s.width != width then Scan(st.full, [])
    else if s.y == 0 then Scan(st.full, [s])
    else if st.merge == [] then st
    else if s.y != st.merge[|st.merge| - 1].y + st.merge[|st.merge| - 1].height then Scan(st.full, [])
    else if s.y + s.height == height then Scan(st.full + [Merged(width, height, st.merge + [s])], [])
    else Scan(st.full, st.merge + [s])
  }

  function Scanned(width: nat, height: nat, updates: seq<Update>): Scan {
    if updates == [] then Scan([], []) else
    ScanStep(width, height, Scanned(width, height, updates[..|updates| - 1]), updates[|updates| - 1])
  }

  class Stats {
    var updates: seq<Update>
    var width: nat
    var height: nat

    ghost predicate Valid()
      reads this
    {
      width == Right(updates) && height == Bottom(updates)
    }

    constructor ()
      ensures Valid() && updates == []
    {
      updates, width, height := [], 0, 0;
    }

    method Add(stat: Update)
      requires Valid()
      modifies this
      ensures Valid() && updates == old(updates) + [stat]
    {
      var right := stat.x + stat.width;
      if right > width {
        width := right;
      }
      var bottom := stat.y + stat.height;
      if bottom > height {
        height := bottom;
      }
      updates := updates + [stat];
      assert updates[..|updates| - 1] == old(updates);
    }

    method Mean(merge: seq<Update>) returns (mean: real)
      requires merge != []
      ensures mean == Total(merge) / |merge| as real
    {
      var sum := 0.0;
      for i := 0 to |merge|
        invariant sum == Total(merge[..i])
      {
        sum := sum + merge[i].compression;
        assert merge[..i + 1][..i] == merge[..i];
      }
      assert merge[..|merge|] == merge;
      mean := sum / |merge| as real;
    }

    method Full() returns (full: seq<Update>)
      ensures full == Scanned(width, height, updates).full
    {
      full := [];
      var merge := [];
      for i := 0 to |updates|
        invariant Scan(full, merge) == Scanned(width, height, updates[..i])
      {
        assert updates[..i + 1][..i] == updates[..i];
        var s := updates[i];
        if s.x == 0 && s.y == 0 && s.width == width && s.height == height {
          full := full + [s];
          merge := [];
          continue;
        }
        if s.x != 0 || s.width != width {
          merge := [];
          continue;
        }
        if s.y == 0 {
          merge := [s];
          continue;
        }
        if merge == [] {
          continue;
        }
        var last := merge[|merge| - 1];
        if s.y != last.y + last.height {
          merge := [];
          continue;
        }
        merge := merge + [s];
        if s.y + s.height == height {
          var mean := Mean(merge);
          full := full + [merge[0].(width := width, height := height, compression := mean, bulkEnd := s.bulkEnd)];
          merge := [];
        }
      }
      assert updates[..|updates|] == updates;
    }
  }

  // ---------------------------------------------------------------- what the scan finds in any updates

  /** Full-width updates one right below the other, the first at the top and no other one there. */
  predicate Column(m: seq<Update>, width: nat) {
    && m != [] && m[0].y == 0
    && (forall i :: 0 <= i < |m| ==> m[i].x == 0 && m[i].width == width)
    && (forall i :: 0 < i < |m| ==> 0 < m[i].y == m[i - 1].y + m[i - 1].height)
  }

  predicate EndsAbove(m: seq<Update>, height: nat) {
    forall i :: 0 <= i < |m| ==> m[i].y + m[i].height != height
  }

  /** The last updates, from k on, are a column that has not met the last row. */
  predicate OpenFrom(updates: seq<Update>, k: nat, width: nat, height: nat) {
    k < |updates| && Column(updates[k..], width) && EndsAbove(updates[k..], height)
  }

  /** The last updates, from k on, are a column that meets the last row with its last piece. */
  predicate ClosedFrom(updates: seq<Update>, k: nat, width: nat, height: nat) {
    && k < |updates| && Column(updates[k..], width) && EndsAbove(updates[k..|updates| - 1], height)
    && updates[|updates| - 1].y + updates[|updates| - 1].height == height
  }

  /** Update s extends the pieces, or starts a column of its own. */
  predicate Continues(pieces: seq<Update>, s: Update, width: nat) {
    && s.x == 0 && s.width == width
    && (s.y > 0 ==> pieces != [] && s.y == pieces[|pieces| - 1].y + pieces[|pieces| - 1].height)
  }

  function Extended(pieces: seq<Update>, s: Update): seq<Update> {
    if s.y == 0 then [s] else pieces + [s]
  }

  lemma ScanStepCases(width: nat, height: nat, full: seq<Update>, pieces: seq<Update>, s: Update)
    ensures ScanStep(width, height, Scan(full, pieces), s)
            == if !Continues(pieces, s, width) then Scan(full, [])
               else if s.y + s.height != height then Scan(full, Extended(pieces, s))
               else Scan(full + [Merged(width, height, Extended(pieces, s))], [])
  {
    if s.y == 0 && s.x == 0 && s.width == width && s.height == height {
      assert Total([s]) == Total([]) + s.compression;
      assert Merged(width, height, [s]) == s;
    }
  }

  lemma ColumnStep(updates: seq<Update>, k: nat, width: nat)
    requires k < |updates|
    ensures var n := |updates| - 1;
            var s := updates[n];
            && updates[k..] == updates[..n][k..] + [s]
            && (Column(updates[k..], width)
                <==> s.x == 0 && s.width == width
                     && if k == n then s.y == 0
                        else 0 < s.y == updates[n - 1].y + updates[n - 1].height && Column(updates[..n][k..], width))
  {
    var n := |updates| - 1;
    var m, before := updates[k..], updates[..n][k..];
    assert m == before + [updates[n]];
    if k < n && Column(m, width) {
      assert forall i :: 0 <= i < |before| ==> before[i] == m[i];
      assert m[|m| - 2] == updates[n - 1];
    }
    if k < n && Column(before, width) {
      assert before[|before| - 1] == updates[n - 1];
    }
  }

  /** The pieces are the updates from k on, for the one k they can be; none if there is no such k. */
  ghost predicate Collects(pieces: seq<Update>, updates: seq<Update>, width: nat, height: nat) {
    && (forall k: nat :: OpenFrom(updates, k, width, height) ==> pieces == updates[k..])
    && (pieces != [] ==> |pieces| <= |updates| && OpenFrom(updates, |updates| - |pieces|, width, height))
  }

  /** One update: which columns it closes, which it leaves open. */
  lemma SuffixesStep(updates: seq<Update>, pieces: seq<Update>, k: nat, width: nat, height: nat)
    requires k < |updates| && Collects(pieces, updates[..|updates| - 1], width, height)
    ensures var s := updates[|updates| - 1];
            && (OpenFrom(updates, k, width, height)
                ==> Continues(pieces, s, width) && s.y + s.height != height && updates[k..] == Extended(pieces, s))
            && (ClosedFrom(updates, k, width, height)
                ==> Continues(pieces, s, width) && s.y + s.height == height && updates[k..] == Extended(pieces, s))
  {
    var n := |updates| - 1;
    ColumnStep(updates, k, width);
    if OpenFrom(updates, k, width, height) || ClosedFrom(updates, k, width, height) {
      assert updates[k..n] == updates[..n][k..];
      if k < n {
        assert forall i :: 0 <= i < n - k ==> updates[..n][k..][i] == updates[k..][i];
        assert OpenFrom(updates[..n], k, width, height);
      }
    }
  }

  lemma ExtendedIsSuffix(updates: seq<Update>, pieces: seq<Update>, width: nat, height: nat)
    requires updates != [] && Collects(pieces, updates[..|updates| - 1], width, height)
    requires Continues(pieces, updates[|updates| - 1], width)
    ensures var s := updates[|updates| - 1];
            var m := Extended(pieces, s);
            && |m| <= |updates| && m == updates[|updates| - |m|..]
            && (if s.y + s.height == height then ClosedFrom(updates, |updates| - |m|, width, height)
                else OpenFrom(updates, |updates| - |m|, width, height))
  {
    var n := |updates| - 1;
    var s := updates[n];
    var k := |updates| - |Extended(pieces, s)|;
    ColumnStep(updates, k, width);
    assert updates[k..n] == updates[..n][k..];
    if s.y > 0 {
      assert pieces == updates[..n][k..];
      assert pieces[|pieces| - 1] == updates[n - 1];
    }
  }

  /**
   * For any updates at all: the pieces collected are the last updates that form an open column, and an
   * update adds an entry exactly when it closes one, the entry merged from that column.
   */
  lemma {:induction false} ScanIsExact(width: nat, height: nat, updates: seq<Update>)
    ensures Collects(Scanned(width, height, updates).merge, updates, width, height)
    ensures forall k: nat | ClosedFrom(updates, k, width, height) ::
              Scanned(width, height, updates).full
              == Scanned(width, height, updates[..|updates| - 1]).full + [Merged(width, height, updates[k..])]
    ensures updates != [] && (forall k: nat :: !ClosedFrom(updates, k, width, height))
            ==> Scanned(width, height, updates).full == Scanned(width, height, updates[..|updates| - 1]).full
  {
    if updates != [] {
      var n := |updates| - 1;
      var s := updates[n];
      ScanIsExact(width, height, updates[..n]);
      var before := Scanned(width, height, updates[..n]);
      ScanStepCases(width, height, before.full, before.merge, s);
      forall k: nat | k < |updates|
        ensures OpenFrom(updates, k, width, height) || ClosedFrom(updates, k, width, height)
                ==> Continues(before.merge, s, width) && updates[k..] == Extended(before.merge, s)
        ensures OpenFrom(updates, k, width, height) ==> s.y + s.height != height
        ensures ClosedFrom(updates, k, width, height) ==> s.y + s.height == height
      {
        SuffixesStep(updates, before.merge, k, width, height);
      }
      if Continues(before.merge, s, width) {
        ExtendedIsSuffix(updates, before.merge, width, height);
      }
    }
  }

  /** An entry stands for the whole screen, from the start of its first piece to the end of its last. */
  lemma MergedIsWhole(width: nat, height: nat, m: seq<Update>, lo: real, hi: real)
    requires Column(m, width) && forall i :: 0 <= i < |m| ==> lo <= m[i].compression <= hi
    ensures var u := Merged(width, height, m);
            && u.x == 0 && u.y == 0 && u.width == width && u.height == height
            && u.bulkStart == m[0].bulkStart && u.bulkEnd == m[|m| - 1].bulkEnd && lo <= u.compression <= hi
  {
    TotalBetween(m, lo, hi);
    MeanBetween(Total(m), |m|, lo, hi);
  }

  lemma {:induction false} TotalBetween(m: seq<Update>, lo: real, hi: real)
    requires forall i :: 0 <= i < |m| ==> lo <= m[i].compression <= hi
    ensures |m| as real * lo <= Total(m) <= |m| as real * hi
  {
    if m != [] {
      TotalBetween(m[..|m| - 1], lo, hi);
    }
  }

  lemma MeanBetween(total: real, n: nat, lo: real, hi: real)
    requires n > 0 && n as real * lo <= total <= n as real * hi
    ensures lo <= total / n as real <= hi
  {
  }

  /** A piece alone is its own entry, and the mean weighs every piece alike. */
  lemma {:induction false} MeanIsFair(width: nat, height: nat, a: seq<Update>, b: seq<Update>)
    requires a != [] && b != []
    ensures Merged(width, height, [a[0]]).compression == a[0].compression
    ensures Merged(width, height, a + b).compression * (|a| + |b|) as real
            == Merged(width, height, a).compression * |a| as real + Merged(width, height, b).compression * |b| as real
  {
    assert Total([a[0]]) == Total([]) + a[0].compression;
    TotalAdds(a, b);
  }

  lemma {:induction false} TotalAdds(a: seq<Update>, b: seq<Update>)
    ensures Total(a + b) == Total(a) + Total(b)
  {
    if b == [] {
      assert a + b == a;
    } else {
      TotalAdds(a, b[..|b| - 1]);
      assert (a + b)[..|a + b| - 1] == a + b[..|b| - 1];
    }
  }

  // ---------------------------------------------------------------- frames split by the driver

  /** The updates of one frame: full-width pieces one below the other, from the top down to row `bottom`. */
  predicate Stacked(f: seq<Update>, width: nat, bottom: nat) {
    if f == [] then bottom == 0 else
    var last := f[|f| - 1];
    last.x == 0 && last.width == width && 0 < last.height && last.y + last.height == bottom
    && Stacked(f[..|f| - 1], width, last.y)
  }

  function Reached(f: seq<Update>): nat {
    if f == [] then 0 else f[|f| - 1].y + f[|f| - 1].height
  }

  /** The monitor's updates have the rectangles of the requests. */
  predicate Records(f: seq<Update>, requests: seq<Request>) {
    |f| == |requests|
    && forall i :: 0 <= i < |f| ==>
         f[i].x == requests[i].x && f[i].y == requests[i].y
         && f[i].width == requests[i].width && f[i].height == requests[i].height
  }

  lemma {:induction false} TransferredIsStacked(requests: seq<Request>, f: seq<Update>, width: nat, bottom: nat)
    requires Tiles(requests, width, bottom) && Records(f, requests)
    ensures Stacked(f, width, bottom)
  {
    if f != [] {
      TransferredIsStacked(requests[..|f| - 1], f[..|f| - 1], width, requests[|f| - 1].y);
    }
  }

  ghost predicate SplitFrames(frames: seq<seq<Update>>, width: nat, height: nat) {
    forall f :: f in frames ==> Stacked(f, width, Reached(f)) && Reached(f) <= height
  }

  function Stream(frames: seq<seq<Update>>): seq<Update> {
    if frames == [] then [] else Stream(frames[..|frames| - 1]) + frames[|frames| - 1]
  }

  /** One entry for every frame whose rows are all there, in order. */
  function Whole(frames: seq<seq<Update>>, width: nat, height: nat): seq<Update> {
    if frames == [] then [] else
    var f := frames[|frames| - 1];
    var before := Whole(frames[..|frames| - 1], width, height);
    if Reached(f) == height && f != [] then before + [Merged(width, height, f)] else before
  }

  ghost predicate SomeComplete(frames: seq<seq<Update>>, height: nat) {
    exists f :: f in frames && Reached(f) == height
  }

  lemma StackedFacts(f: seq<Update>, width: nat, bottom: nat)
    requires Stacked(f, width, bottom)
    ensures bottom == Reached(f) && (f == [] <==> bottom == 0)
  {
  }

  /** The entries and pieces once the pieces f of a frame have been seen. */
  function Collected(width: nat, height: nat, full: seq<Update>, f: seq<Update>): Scan
    requires f != []
  {
    if Reached(f) < height then Scan(full, f) else Scan(full + [Merged(width, height, f)], [])
  }

  lemma ScanFirst(width: nat, height: nat, a: Scan, s: Update)
    requires s.x == 0 && s.y == 0 && s.width == width && s.height <= height
    ensures ScanStep(width, height, a, s) == Collected(width, height, a.full, [s])
  {
    assert Total([s]) == Total([]) + s.compression;
  }

  lemma ScanNext(width: nat, height: nat, full: seq<Update>, pieces: seq<Update>, s: Update)
    requires pieces != [] && s.x == 0 && s.width == width && 0 < s.y == Reached(pieces) && s.y + s.height <= height
    ensures ScanStep(width, height, Scan(full, pieces), s) == Collected(width, height, full, pieces + [s])
  {
  }

  /** Scanning the pieces of one frame after anything else. */
  lemma {:induction false} ScanFrame(width: nat, height: nat, before: seq<Update>, f: seq<Update>)
    requires f != [] && Stacked(f, width, Reached(f)) && Reached(f) <= height
    ensures Scanned(width, height, before + f) == Collected(width, height, Scanned(width, height, before).full, f)
  {
    var n := |f| - 1;
    var a := Scanned(width, height, before);
    assert (before + f)[..|before + f| - 1] == before + f[..n] && (before + f)[|before + f| - 1] == f[n];
    assert f == f[..n] + [f[n]];
    StackedFacts(f[..n], width, f[n].y);
    if n == 0 {
      assert before + f[..n] == before;
      ScanFirst(width, height, a, f[0]);
    } else {
      ScanFrame(width, height, before, f[..n]);
      ScanNext(width, height, a.full, f[..n], f[n]);
    }
  }

  lemma {:induction false} ScanStream(width: nat, height: nat, frames: seq<seq<Update>>)
    requires height > 0 && SplitFrames(frames, width, height)
    ensures Scanned(width, height, Stream(frames)).full == Whole(frames, width, height)
  {
    if frames != [] {
      var n := |frames| - 1;
      ScanStream(width, height, frames[..n]);
      if frames[n] == [] {
        assert Stream(frames) == Stream(frames[..n]);
      } else {
        ScanFrame(width, height, Stream(frames[..n]), frames[n]);
      }
    }
  }

  // ---------------------------------------------------------------- what the maxima recorded are

  /** The recorded size is the least that holds every rectangle seen. */
  lemma {:induction false} ExtentIsLeast(updates: seq<Update>, right: nat, bottom: nat)
    ensures Right(updates) <= right <==> forall u :: u in updates ==> u.x + u.width <= right
    ensures Bottom(updates) <= bottom <==> forall u :: u in updates ==> u.y + u.height <= bottom
  {
    if updates != [] {
      var n := |updates| - 1;
      ExtentIsLeast(updates[..n], right, bottom);
      assert updates == updates[..n] + [updates[n]];
    }
  }

  lemma {:induction false} ExtentOfSum(a: seq<Update>, b: seq<Update>)
    ensures Right(a + b) == if Right(b) > Right(a) then Right(b) else Right(a)
    ensures Bottom(a + b) == if Bottom(b) > Bottom(a) then Bottom(b) else Bottom(a)
  {
    if b == [] {
      assert a + b == a;
    } else {
      ExtentOfSum(a, b[..|b| - 1]);
      assert (a + b)[..|a + b| - 1] == a + b[..|b| - 1];
    }
  }

  lemma {:induction false} ExtentOfFrame(f: seq<Update>, width: nat, bottom: nat)
    requires Stacked(f, width, bottom)
    ensures Bottom(f) == bottom && Right(f) == if f == [] then 0 else width
  {
    if f != [] {
      ExtentOfFrame(f[..|f| - 1], width, f[|f| - 1].y);
    }
  }

  /** The recorded height is the lowest row any frame reached. */
  lemma {:induction false} ExtentOfStream(frames: seq<seq<Update>>, width: nat, height: nat)
    requires SplitFrames(frames, width, height)
    ensures Right(Stream(frames)) == if Stream(frames) == [] then 0 else width
    ensures SplitFrames(frames, width, Bottom(Stream(frames)))
    ensures Bottom(Stream(frames)) <= height && (Bottom(Stream(frames)) == 0 <==> Stream(frames) == [])
    ensures Stream(frames) != [] ==> SomeComplete(frames, Bottom(Stream(frames)))
  {
    if frames != [] {
      var n := |frames| - 1;
      ExtentOfStream(frames[..n], width, height);
      ExtentOfFrame(frames[n], width, Reached(frames[n]));
      ExtentOfSum(Stream(frames[..n]), frames[n]);
    }
  }

  lemma {:induction false} WholeCounts(frames: seq<seq<Update>>, width: nat, height: nat)
    requires height > 0
    ensures Whole(frames, width, height) == [] <==> !SomeComplete(frames, height)
  {
    if frames != [] {
      WholeCounts(frames[..|frames| - 1], width, height);
      var f := frames[|frames| - 1];
      assert frames == frames[..|frames| - 1] + [f];
    }
  }

  /**
   * Reassembly inverts the driver's split: for any stream of same-size frames, each transferred whole or
   * cut off after some rows, the monitor finds exactly one entry per whole frame, in order - if and only
   * if some frame is whole or nothing was transferred. Otherwise it takes the longest prefix for a frame.
   */
  lemma ReassemblyInvertsSplit(frames: seq<seq<Update>>, width: nat, height: nat)
    requires height > 0 && SplitFrames(frames, width, height)
    ensures var all := Stream(frames);
            Scanned(Right(all), Bottom(all), all).full == Whole(frames, width, height)
            <==> SomeComplete(frames, height) || all == []
  {
    var all := Stream(frames);
    ExtentOfStream(frames, width, height);
    if all != [] {
      ScanStream(width, Bottom(all), frames);
      WholeCounts(frames, width, Bottom(all));
      WholeCounts(frames, width, height);
      if SomeComplete(frames, height) {
        var f :| f in frames && Reached(f) == height;
        assert Reached(f) <= Bottom(all);
      }
    } else {
      ScanStream(width, height, frames);
    }
  }

  /** Without a whole frame the longest prefix passes for one: two rows of eight, say. */
  lemma CutOffFrameIsReported()
    ensures var piece := Update(0, 0, 4, 2, 0.0, 1.0, 1.0);
            && SplitFrames([[piece]], 4, 8) && Whole([[piece]], 4, 8) == []
            && Scanned(Right([piece]), Bottom([piece]), [piece]).full == [piece]
  {
    var piece := Update(0, 0, 4, 2, 0.0, 1.0, 1.0);
    assert [piece][..0] == [] && [[piece]][..0] == [];
  }

  // ---------------------------------------------------------------- what is recorded of a transfer

  /** The accepted request waiting for its bulk transfer, and the requests recorded. */
  datatype Listening = Listening(control: Option<Request>, recorded: seq<Request>)

  /** The first bulk transfer after an accepted request records it, whatever becomes of the transfer. */
  function Hear(l: Listening, e: Event): Listening {
    match e
    case SetBuffer(request, result) => if result == 0 then l.(control := Some(request)) else l
    case Bulk(_, _, _, _) => if l.control.Some? then Listening(None, l.recorded + [l.control.value]) else l
  }

  function ListenTo(l: Listening, events: seq<Event>): Listening {
    if events == [] then l else Hear(ListenTo(l, events[..|events| - 1]), events[|events| - 1])
  }

  const SILENCE: Listening := Listening(None, [])

  function Recorded(events: seq<Event>): seq<Request> {
    ListenTo(SILENCE, events).recorded
  }

  /** The loop of the monitor over the transfers it sees. */
  method MonitorWire(events: seq<Event>) returns (recorded: seq<Request>)
    ensures recorded == Recorded(events)
  {
    recorded := [];
    var controlFlush := None;
    for i := 0 to |events|
      invariant Listening(controlFlush, recorded) == ListenTo(SILENCE, events[..i])
    {
      assert events[..i + 1][..i] == events[..i];
      match events[i]
      case SetBuffer(request, status) =>
        if status == 0 {
          controlFlush := Some(request);
        }
      case Bulk(_, _, _, _) =>
        if controlFlush.Some? {
          recorded := recorded + [controlFlush.value];
          controlFlush := None;
        }
    }
    assert events[..|events|] == events;
  }

  lemma OneMoreTile(requests: seq<Request>, p: Plan, row: nat)
    requires FrameTransfer.Sound(p) && row < p.height && Tiles(requests, p.width, row)
    ensures Tiles(requests + [RectRequest(p, row)], p.width, row + Rows(p, row))
  {
    assert (requests + [RectRequest(p, row)])[..|requests|] == requests;
  }

  /** How far down the recorded rectangles reach in a state of the driver. */
  function RecordedRows(p: Plan, s: State, afterBulk: bool): nat
    requires FrameTransfer.Sound(p)
  {
    if s.row < p.height && afterBulk && !s.phase.Asking? then s.row + Rows(p, s.row) else s.row
  }

  /** In every reachable state a request waits for its bulk transfer exactly between the two. */
  lemma {:induction false} RequestWaits(p: Plan, events: seq<Event>)
    requires FrameTransfer.Sound(p) && Run(p, events).Some?
    ensures var s := Run(p, events).value;
            && s.row <= p.height && (!s.phase.Asking? ==> s.row < p.height)
            && (ListenTo(SILENCE, events).control
                == if s.phase == Sending(0) then Some(RectRequest(p, s.row)) else None)
            && (s.phase.Sending? ==> (EndsInBulk(events) <==> s.phase.again > 0))
  {
    if events != [] {
      RequestWaits(p, events[..|events| - 1]);
    }
  }

  lemma StepTile(p: Plan, s: State, l: Listening, afterBulk: bool, e: Event)
    requires FrameTransfer.Sound(p) && Step(p, s, e).Some? && (s.phase.Sending? ==> (afterBulk <==> s.phase.again > 0))
    requires l.control == if s.phase == Sending(0) then Some(RectRequest(p, s.row)) else None
    requires Tiles(l.recorded, p.width, RecordedRows(p, s, afterBulk))
    ensures Tiles(Hear(l, e).recorded, p.width, RecordedRows(p, Step(p, s, e).value, e.Bulk?))
  {
    if s.phase == Sending(0) {
      OneMoreTile(l.recorded, p, s.row);
    }
  }

  /** In every reachable state the recorded requests tile the rows done, and the rectangle whose bulk is under way. */
  lemma {:induction false} RecordedTile(p: Plan, events: seq<Event>)
    requires FrameTransfer.Sound(p) && Run(p, events).Some?
    ensures Tiles(ListenTo(SILENCE, events).recorded, p.width,
                  RecordedRows(p, Run(p, events).value, EndsInBulk(events)))
  {
    if events != [] {
      var before := events[..|events| - 1];
      RequestWaits(p, before);
      RecordedTile(p, before);
      StepTile(p, Run(p, before).value, ListenTo(SILENCE, before), EndsInBulk(before), events[|events| - 1]);
    }
  }

  /** The transfer stopped at a bulk of the frame's last rectangle. */
  predicate FailedAtLast(p: Plan, events: seq<Event>, rectangles: nat) {
    && BulkFailed(events)
    && p.maxRows > 0 && rectangles + 1 == (p.height + p.maxRows - 1) / p.maxRows
  }

  lemma LastRectangle(p: Plan, row: nat, rects: nat)
    requires FrameTransfer.Sound(p) && row < p.height && Filled(p, row, rects)
    ensures row + Rows(p, row) == p.height <==> rects + 1 == (p.height + p.maxRows - 1) / p.maxRows
  {
    RoundedUpIff(p.height, p.maxRows, rects + 1);
    assert p.maxRows * (rects + 1) == p.maxRows * rects + p.maxRows;
  }

  lemma RecordedOfOutcome(p: Plan, events: seq<Event>, gone: bool, ret: int, rectangles: nat)
    requires FrameTransfer.Sound(p) && Outcome(p, events, gone, ret, rectangles)
    ensures ListenTo(SILENCE, events).control == None
    ensures var rows := RecordedRows(p, Run(p, events).value, EndsInBulk(events));
            && rows <= p.height && Tiles(Recorded(events), p.width, rows)
            && (rows == p.height <==> ret == 0 || FailedAtLast(p, events, rectangles))
  {
    RequestWaits(p, events);
    RecordedTile(p, events);
    PairsTile(p, events);
    var s := Run(p, events).value;
    StoppedEarly(p, events);
    if s.row < p.height {
      LastRectangle(p, s.row, s.rects);
    }
  }

  /**
   * What the monitor records of one transfer is a frame split from the top: all of it if and only if the
   * transfer returned 0 or stopped at a bulk of its last rectangle.
   */
  lemma TransferIsFrame(p: Plan, events: seq<Event>, gone: bool, ret: int, rectangles: nat, f: seq<Update>)
    requires FrameTransfer.Sound(p) && Outcome(p, events, gone, ret, rectangles)
    requires Records(f, Recorded(events))
    ensures Stacked(f, p.width, Reached(f)) && Reached(f) <= p.height
    ensures Reached(f) == p.height <==> ret == 0 || FailedAtLast(p, events, rectangles)
  {
    RecordedOfOutcome(p, events, gone, ret, rectangles);
    var rows := RecordedRows(p, Run(p, events).value, EndsInBulk(events));
    TransferredIsStacked(Recorded(events), f, p.width, rows);
    StackedFacts(f, p.width, rows);
  }

  /** A transfer that failed with -ETIMEDOUT, at the only bulk of a frame of one pixel, is reported as a full frame. */
  lemma FailedFrameIsReported(lz: Lz4.Codec<byte>)
    ensures var p := Plan(lz, 1, 1, 2, 2, 1, [0, 0], false, 100);
            && FrameTransfer.Sound(p)
            && var events := [SetBuffer(RectRequest(p, 0), 0)] + [Bulk(RectPayload(p, 0), -110, 0, false)];
               var u := Update(0, 0, 1, 1, 0.0, 1.0, 1.0);
               && Outcome(p, events, false, -110, 0) && Records([u], Recorded(events))
               && Scanned(Right([u]), Bottom([u]), [u]).full == [u]
  {
    var p := Plan(lz, 1, 1, 2, 2, 1, [0, 0], false, 100);
    var ask, send := SetBuffer(RectRequest(p, 0), 0), Bulk(RectPayload(p, 0), -110, 0, false);
    var u := Update(0, 0, 1, 1, 0.0, 1.0, 1.0);
    RunStep(p, [], ask);
    assert [] + [ask] == [ask];
    RunStep(p, [ask], send);
    assert ([ask] + [send])[..1] == [ask] && [ask][..0] == [];
    assert ListenTo(SILENCE, [ask]) == Listening(Some(RectRequest(p, 0)), []);
    assert ListenTo(SILENCE, [ask] + [send]) == Listening(None, [RectRequest(p, 0)]);
    assert [u][..0] == [];
  }

  // ---------------------------------------------------------------- a session of transfers

  /** One call of the driver that got as far as sending. */
  datatype Call = Call(plan: Plan, events: seq<Event>, gone: bool, ret: int, rectangles: nat)

  predicate Made(c: Call, width: nat, height: nat) {
    && FrameTransfer.Sound(c.plan) && c.plan.width == width && c.plan.height == height
    && Outcome(c.plan, c.events, c.gone, c.ret, c.rectangles)
  }

  /** The updates of every call, call by call. */
  predicate Observed(calls: seq<Call>, frames: seq<seq<Update>>, width: nat, height: nat) {
    && |frames| == |calls|
    && forall i :: 0 <= i < |calls| ==> Made(calls[i], width, height) && Records(frames[i], Recorded(calls[i].events))
  }

  /** Everything that went over the wire. */
  function Wire(calls: seq<Call>): seq<Event> {
    if calls == [] then [] else Wire(calls[..|calls| - 1]) + calls[|calls| - 1].events
  }

  lemma {:induction false} ListenOn(l: Listening, a: seq<Event>, b: seq<Event>)
    requires ListenTo(l, a).control == None
    ensures var heard := ListenTo(SILENCE, b);
            ListenTo(l, a + b) == Listening(heard.control, ListenTo(l, a).recorded + heard.recorded)
  {
    if b == [] {
      assert a + b == a;
    } else {
      var n := |b| - 1;
      ListenOn(l, a, b[..n]);
      assert (a + b)[..|a + b| - 1] == a + b[..n] && (a + b)[|a + b| - 1] == b[n];
    }
  }

  lemma RecordsSum(f: seq<Update>, g: seq<Update>, a: seq<Request>, b: seq<Request>)
    requires Records(f, a) && Records(g, b)
    ensures Records(f + g, a + b)
  {
  }

  /** No call leaves an accepted request behind: the whole wire is recorded call by call. */
  lemma {:induction false} WireIsHeard(calls: seq<Call>, frames: seq<seq<Update>>, width: nat, height: nat)
    requires Observed(calls, frames, width, height)
    ensures ListenTo(SILENCE, Wire(calls)).control == None
    ensures Records(Stream(frames), Recorded(Wire(calls)))
  {
    if calls != [] {
      var n := |calls| - 1;
      var c := calls[n];
      WireIsHeard(calls[..n], frames[..n], width, height);
      RecordedOfOutcome(c.plan, c.events, c.gone, c.ret, c.rectangles);
      ListenOn(SILENCE, Wire(calls[..n]), c.events);
      RecordsSum(Stream(frames[..n]), frames[n], Recorded(Wire(calls[..n])), Recorded(c.events));
    }
  }

  /** One entry for every call that returned 0, in order. */
  function Delivered(calls: seq<Call>, frames: seq<seq<Update>>, width: nat, height: nat): seq<Update>
    requires |frames| == |calls|
  {
    if calls == [] then [] else
    var n := |calls| - 1;
    var before := Delivered(calls[..n], frames[..n], width, height);
    if calls[n].ret == 0 && frames[n] != [] then before + [Merged(width, height, frames[n])] else before
  }

  /** The call failed, but on a bulk of its last rectangle. */
  predicate Deceives(c: Call) {
    c.ret != 0 && FailedAtLast(c.plan, c.events, c.rectangles)
  }

  ghost predicate SomeDelivered(calls: seq<Call>) {
    exists i :: 0 <= i < |calls| && calls[i].ret == 0
  }

  ghost predicate SomeDeceives(calls: seq<Call>) {
    exists i :: 0 <= i < |calls| && Deceives(calls[i])
  }

  lemma CallIsFrame(c: Call, f: seq<Update>, width: nat, height: nat)
    requires Made(c, width, height) && Records(f, Recorded(c.events))
    ensures height > 0 && Stacked(f, width, Reached(f)) && Reached(f) <= height
    ensures Reached(f) == height <==> c.ret == 0 || Deceives(c)
  {
    TransferIsFrame(c.plan, c.events, c.gone, c.ret, c.rectangles, f);
  }

  lemma CallsAreFrames(calls: seq<Call>, frames: seq<seq<Update>>, width: nat, height: nat)
    requires Observed(calls, frames, width, height)
    ensures SplitFrames(frames, width, height)
    ensures SomeComplete(frames, height) <==> SomeDelivered(calls) || SomeDeceives(calls)
  {
    forall i | 0 <= i < |calls|
      ensures Stacked(frames[i], width, Reached(frames[i])) && Reached(frames[i]) <= height
      ensures Reached(frames[i]) == height <==> calls[i].ret == 0 || Deceives(calls[i])
    {
      CallIsFrame(calls[i], frames[i], width, height);
    }
    if SomeDelivered(calls) {
      var i :| 0 <= i < |calls| && calls[i].ret == 0;
      assert frames[i] in frames;
    }
    if SomeDeceives(calls) {
      var i :| 0 <= i < |calls| && Deceives(calls[i]);
      assert frames[i] in frames;
    }
  }

  lemma DeceivesLast(calls: seq<Call>)
    requires calls != []
    ensures SomeDeceives(calls) <==> SomeDeceives(calls[..|calls| - 1]) || Deceives(calls[|calls| - 1])
  {
    var n := |calls| - 1;
    forall i | 0 <= i < n
      ensures calls[..n][i] == calls[i]
    {
    }
    if SomeDeceives(calls[..n]) {
      var i :| 0 <= i < n && Deceives(calls[..n][i]);
      assert Deceives(calls[i]);
    }
  }

  /** A deceiving call has an entry among the whole frames, but not among the delivered ones. */
  lemma {:induction false} DeliveredOrDeceiving(calls: seq<Call>, frames: seq<seq<Update>>, width: nat, height: nat)
    requires Observed(calls, frames, width, height)
    ensures |Delivered(calls, frames, width, height)| <= |Whole(frames, width, height)|
    ensures if SomeDeceives(calls) then |Delivered(calls, frames, width, height)| < |Whole(frames, width, height)|
            else Delivered(calls, frames, width, height) == Whole(frames, width, height)
  {
    if calls != [] {
      var n := |calls| - 1;
      DeliveredOrDeceiving(calls[..n], frames[..n], width, height);
      CallIsFrame(calls[n], frames[n], width, height);
      DeceivesLast(calls);
    }
  }

  /**
   * The full frames reported for a session of calls are exactly the frames whose transfer returned 0, in
   * order, if and only if no call failed at a bulk of its last rectangle and, unless nothing was recorded,
   * some call returned 0.
   */
  lemma SessionReported(calls: seq<Call>, frames: seq<seq<Update>>, width: nat, height: nat)
    requires height > 0 && Observed(calls, frames, width, height)
    ensures var all := Stream(frames);
            Scanned(Right(all), Bottom(all), all).full == Delivered(calls, frames, width, height)
            <==> !SomeDeceives(calls) && (SomeDelivered(calls) || all == [])
  {
    CallsAreFrames(calls, frames, width, height);
    DeliveredOrDeceiving(calls, frames, width, height);
    ReassemblyInvertsSplit(frames, width, height);
  }
}
