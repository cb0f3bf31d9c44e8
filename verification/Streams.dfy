/** Streams put together from the parts of frames, tile row by tile row, and what is found last in them. */
module Streams {
  import opened Bytes

  /** The last of the values the events yield. */
  function Last<E, P>(value: E -> Option<P>, events: seq<E>): Option<P> {
    if events == [] then None else
    var last := value(events[|events| - 1]);
    if last.Some? then last else Last(value, events[..|events| - 1])
  }

  /** The parts of a stream one after the other. */
  function Joined<E>(part: nat -> seq<E>, n: nat): seq<E> {
    if n == 0 then [] else Joined(part, n - 1) + part(n - 1)
  }

  lemma {:induction false} LastOfBoth<E, P>(value: E -> Option<P>, a: seq<E>, b: seq<E>)
    ensures Last(value, a + b) == if Last(value, b).Some? then Last(value, b) else Last(value, a)
  {
    if b == [] {
      assert a + b == a;
    } else {
      assert (a + b)[..|a + b| - 1] == a + b[..|b| - 1];
      LastOfBoth(value, a, b[..|b| - 1]);
    }
  }

  /** When only part q yields anything, so does the whole. */
  lemma {:induction false} LastOfJoined<E, P>(
    value: E -> Option<P>, part: nat -> seq<E>, n: nat, q: nat, hit: Option<P>)
    requires forall j: nat :: j < n ==> Last(value, part(j)) == if j == q then hit else None
    ensures Last(value, Joined(part, n)) == if q < n then hit else None
  {
    if n > 0 {
      LastOfJoined(value, part, n - 1, q, hit);
      LastOfBoth(value, Joined(part, n - 1), part(n - 1));
    }
  }

  lemma {:induction false} InJoined<E>(part: nat -> seq<E>, n: nat, e: E)
    ensures e in Joined(part, n) <==> exists j: nat :: j < n && e in part(j)
  {
    if n > 0 {
      InJoined(part, n - 1, e);
    }
  }

  lemma {:induction false} JoinedLength<E>(part: nat -> seq<E>, n: nat, most: nat)
    requires forall j: nat :: j < n ==> |part(j)| <= most
    ensures |Joined(part, n)| <= n * most
  {
    if n > 0 {
      JoinedLength(part, n - 1, most);
      assert n * most == (n - 1) * most + most;
    }
  }

  // ---------------------------------------------------------------- frames of tiles

  /** The events of tile (tx, ty) of frame f. */
  type Grid<!E> = (nat, nat, nat) -> seq<E>

  function TilesOfRow<E>(tile: Grid<E>, f: nat, ty: nat): nat -> seq<E> {
    (tx: nat) => tile(f, ty, tx)
  }

  function RowOf<E>(tile: Grid<E>, cols: nat, f: nat, ty: nat): seq<E> {
    Joined(TilesOfRow(tile, f, ty), cols)
  }

  function RowsOfFrame<E>(tile: Grid<E>, cols: nat, f: nat): nat -> seq<E> {
    (ty: nat) => RowOf(tile, cols, f, ty)
  }

  function FrameOf<E>(tile: Grid<E>, cols: nat, rows: nat, f: nat): seq<E> {
    Joined(RowsOfFrame(tile, cols, f), rows)
  }

  function Frames<E>(tile: Grid<E>, cols: nat, rows: nat): nat -> seq<E> {
    (f: nat) => FrameOf(tile, cols, rows, f)
  }

  /** The first n frames. */
  function StreamOf<E>(tile: Grid<E>, cols: nat, rows: nat, n: nat): seq<E> {
    Joined(Frames(tile, cols, rows), n)
  }

  // ---------------------------------------------------------------- selecting by number

  /** The events with numbers up to f. */
  function UpTo<E>(number: E -> nat, events: seq<E>, f: nat): seq<E> {
    if events == [] then [] else
    var last := events[|events| - 1];
    var before := UpTo(number, events[..|events| - 1], f);
    if number(last) <= f then before + [last] else before
  }

  ghost predicate Numbered<E>(number: E -> nat, events: seq<E>, f: nat) {
    forall i :: 0 <= i < |events| ==> number(events[i]) == f
  }

  lemma {:induction false} UpToKeeps<E>(number: E -> nat, a: seq<E>, b: seq<E>, f: nat, n: nat)
    requires Numbered(number, b, n) && n <= f
    ensures UpTo(number, a + b, f) == UpTo(number, a, f) + b
  {
    if b == [] {
      assert a + b == a;
    } else {
      assert (a + b)[..|a + b| - 1] == a + b[..|b| - 1];
      UpToKeeps(number, a, b[..|b| - 1], f, n);
    }
  }

  lemma {:induction false} UpToDrops<E>(number: E -> nat, a: seq<E>, b: seq<E>, f: nat, n: nat)
    requires Numbered(number, b, n) && f < n
    ensures UpTo(number, a + b, f) == UpTo(number, a, f)
  {
    if b == [] {
      assert a + b == a;
    } else {
      assert (a + b)[..|a + b| - 1] == a + b[..|b| - 1];
      UpToDrops(number, a, b[..|b| - 1], f, n);
    }
  }

  ghost predicate AllNumbered<E>(number: E -> nat, part: nat -> seq<E>, n: nat) {
    forall k: nat :: k < n ==> Numbered(number, part(k), k)
  }

  lemma {:induction false} UpToAll<E>(number: E -> nat, part: nat -> seq<E>, f: nat, n: nat)
    requires n <= f + 1 && AllNumbered(number, part, n)
    ensures UpTo(number, Joined(part, n), f) == Joined(part, n)
  {
    if n > 0 {
      UpToAll(number, part, f, n - 1);
      UpToKeeps(number, Joined(part, n - 1), part(n - 1), f, n - 1);
    }
  }

  /** A part with a number beyond f. */
  lemma UpToDropsPart<E>(number: E -> nat, part: nat -> seq<E>, f: nat, n: nat)
    requires f + 1 < n && Numbered(number, part(n - 1), n - 1)
    ensures UpTo(number, Joined(part, n), f) == UpTo(number, Joined(part, n - 1), f)
  {
    UpToDrops(number, Joined(part, n - 1), part(n - 1), f, n - 1);
  }

  /** When the events of every part have its number, selecting by number is cutting the stream. */
  lemma {:induction false} UpToCuts<E>(number: E -> nat, part: nat -> seq<E>, f: nat, n: nat)
    requires f < n && AllNumbered(number, part, n)
    ensures UpTo(number, Joined(part, n), f) == Joined(part, f + 1)
  {
    if n == f + 1 {
      UpToAll(number, part, f, n);
    } else {
      UpToDropsPart(number, part, f, n);
      UpToCuts(number, part, f, n - 1);
    }
  }

  // ---------------------------------------------------------------- order

  ghost predicate Ordered<E>(less: (E, E) -> bool, s: seq<E>) {
    forall i, j :: 0 <= i < j < |s| ==> less(s[i], s[j])
  }

  /** Parts in order, each before the next, make an ordered whole. */
  lemma {:induction false} JoinedInOrder<E>(less: (E, E) -> bool, part: nat -> seq<E>, n: nat)
    requires forall k: nat :: k < n ==> |part(k)| <= 1 || Ordered(less, part(k))
    requires forall k: nat, l: nat, a, b :: k < l < n && a in part(k) && b in part(l) ==> less(a, b)
    ensures Ordered(less, Joined(part, n))
  {
    if n > 0 {
      JoinedInOrder(less, part, n - 1);
      var before, last := Joined(part, n - 1), part(n - 1);
      var whole := before + last;
      forall i, j | 0 <= i < j < |whole|
        ensures less(whole[i], whole[j])
      {
        if i < |before| <= j {
          InJoined(part, n - 1, before[i]);
          var k: nat :| k < n - 1 && before[i] in part(k);
          assert last[j - |before|] in part(n - 1);
        } else if j < |before| {
          assert whole[i] == before[i] && whole[j] == before[j];
        } else {
          assert whole[i] == last[i - |before|] && whole[j] == last[j - |before|];
        }
      }
    }
  }

  // ---------------------------------------------------------------- what is found last

  /** Among the tiles of a frame only (qx, qy) yields anything: its emission. */
  ghost predicate OnlyFrom<E, P>(
    value: E -> Option<P>, tile: Grid<E>, cols: nat, rows: nat, f: nat, qx: nat, qy: nat, emission: Option<P>)
  {
    forall ty: nat, tx: nat :: ty < rows && tx < cols ==>
      Last(value, tile(f, ty, tx)) == if tx == qx && ty == qy then emission else None
  }

  lemma LastOfRow<E, P>(
    value: E -> Option<P>, tile: Grid<E>, cols: nat, rows: nat, f: nat, ty: nat, qx: nat, qy: nat, emission: Option<P>)
    requires OnlyFrom(value, tile, cols, rows, f, qx, qy, emission) && ty < rows
    ensures Last(value, RowOf(tile, cols, f, ty)) == if ty == qy && qx < cols then emission else None
  {
    LastOfJoined(value, TilesOfRow(tile, f, ty), cols, qx, if ty == qy then emission else None);
  }

  lemma LastOfFrame<E, P>(
    value: E -> Option<P>, tile: Grid<E>, cols: nat, rows: nat, f: nat, qx: nat, qy: nat, emission: Option<P>)
    requires OnlyFrom(value, tile, cols, rows, f, qx, qy, emission)
    ensures Last(value, FrameOf(tile, cols, rows, f)) == if qy < rows && qx < cols then emission else None
  {
    forall ty: nat | ty < rows
      ensures Last(value, RowsOfFrame(tile, cols, f)(ty)) == if ty == qy && qx < cols then emission else None
    {
      LastOfRow(value, tile, cols, rows, f, ty, qx, qy, emission);
    }
    LastOfJoined(value, RowsOfFrame(tile, cols, f), rows, qy, if qx < cols then emission else None);
  }

  /** Frame f emits its target, or emits nothing and has the target of the frame before. */
  predicate Follows<P(==)>(emission: nat -> Option<P>, target: nat -> P, f: nat) {
    emission(f) == Some(target(f)) || (emission(f) == None && f > 0 && target(f) == target(f - 1))
  }

  /** A tile of the grid: what the stream yields last is the target of the last frame. */
  lemma {:induction false} StreamHits<E, P>(
    value: E -> Option<P>, tile: Grid<E>, cols: nat, rows: nat, n: nat, qx: nat, qy: nat,
    emission: nat -> Option<P>, target: nat -> P)
    requires n > 0 && qx < cols && qy < rows
    requires forall f: nat :: f < n ==> OnlyFrom(value, tile, cols, rows, f, qx, qy, emission(f))
    requires forall f: nat :: f < n ==> Follows(emission, target, f)
    ensures Last(value, StreamOf(tile, cols, rows, n)) == Some(target(n - 1))
  {
    LastOfFrame(value, tile, cols, rows, n - 1, qx, qy, emission(n - 1));
    LastOfBoth(value, StreamOf(tile, cols, rows, n - 1), FrameOf(tile, cols, rows, n - 1));
    assert Follows(emission, target, n - 1);
    if n > 1 {
      StreamHits(value, tile, cols, rows, n - 1, qx, qy, emission, target);
    }
  }

  /** A tile outside the grid: the stream yields nothing. */
  lemma {:induction false} StreamMisses<E, P>(
    value: E -> Option<P>, tile: Grid<E>, cols: nat, rows: nat, n: nat, qx: nat, qy: nat, emission: nat -> Option<P>)
    requires !(qx < cols && qy < rows)
    requires forall f: nat :: f < n ==> OnlyFrom(value, tile, cols, rows, f, qx, qy, emission(f))
    ensures Last(value, StreamOf(tile, cols, rows, n)) == None
  {
    if n > 0 {
      LastOfFrame(value, tile, cols, rows, n - 1, qx, qy, emission(n - 1));
      LastOfBoth(value, StreamOf(tile, cols, rows, n - 1), FrameOf(tile, cols, rows, n - 1));
      StreamMisses(value, tile, cols, rows, n - 1, qx, qy, emission);
    }
  }

  /** An event of a frame comes from one of its tiles. */
  lemma FromFrame<E>(tile: Grid<E>, cols: nat, rows: nat, f: nat, e: E) returns (tx: nat, ty: nat)
    requires e in FrameOf(tile, cols, rows, f)
    ensures tx < cols && ty < rows && e in tile(f, ty, tx)
  {
    InJoined(RowsOfFrame(tile, cols, f), rows, e);
    ty :| ty < rows && e in RowsOfFrame(tile, cols, f)(ty);
    InJoined(TilesOfRow(tile, f, ty), cols, e);
    tx :| tx < cols && e in TilesOfRow(tile, f, ty)(tx);
  }

  lemma ToFrame<E>(tile: Grid<E>, cols: nat, rows: nat, f: nat, tx: nat, ty: nat, e: E)
    requires tx < cols && ty < rows && e in tile(f, ty, tx)
    ensures e in FrameOf(tile, cols, rows, f)
  {
    assert e in TilesOfRow(tile, f, ty)(tx);
    InJoined(TilesOfRow(tile, f, ty), cols, e);
    assert e in RowsOfFrame(tile, cols, f)(ty);
    InJoined(RowsOfFrame(tile, cols, f), rows, e);
  }

  /** With at most one event per tile, a frame has no more events than tiles. */
  lemma FrameLength<E>(tile: Grid<E>, cols: nat, rows: nat, f: nat)
    requires forall ty: nat, tx: nat :: |tile(f, ty, tx)| <= 1
    ensures |FrameOf(tile, cols, rows, f)| <= rows * cols
  {
    forall ty: nat | ty < rows
      ensures |RowsOfFrame(tile, cols, f)(ty)| <= cols
    {
      JoinedLength(TilesOfRow(tile, f, ty), cols, 1);
    }
    JoinedLength(RowsOfFrame(tile, cols, f), rows, cols);
  }
}
