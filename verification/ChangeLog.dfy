/** The log of changed byte indexes over whole frames: everything drawn pixel by pixel since `fill`. */
module ChangeLog {
  import opened Basics
  import opened PixelFormat
  import opened PixelGeometry
  import opened Canvas
  import opened FrameBuffers

  datatype Write = Write(x: int, y: int, col: bv32)

  ghost predicate Drawable(l: Layout, n: nat, run: seq<Write>) {
    forall k :: 0 <= k < |run| ==> l.InFrame(run[k].x, run[k].y) && Has(l, n, run[k].x, run[k].y)
  }

  /** The buffer after the writes of `run`. */
  function BytesAfter(l: Layout, s: Bytes, run: seq<Write>): (t: Bytes)
    requires Drawable(l, |s|, run)
    ensures |t| == |s|
  {
    if run == [] then s
    else
      var last := run[|run| - 1];
      Plot(l, BytesAfter(l, s, run[..|run| - 1]), last.x, last.y, last.col)
  }

  /** The log after the writes of `run`, starting just after a fill. */
  function LogAfter(l: Layout, n: nat, run: seq<Write>): seq<nat>
    requires Drawable(l, n, run)
  {
    if run == [] then []
    else
      var last := run[|run| - 1];
      LogPixel(|run| > 1, LogAfter(l, n, run[..|run| - 1]), n, l.Index(last.x, last.y))
  }

  /** Entry `k` is the byte of write `k`, and only the first `n` writes have one. */
  lemma {:induction false} LogIsAPrefix(l: Layout, n: nat, run: seq<Write>)
    requires Drawable(l, n, run)
    ensures |LogAfter(l, n, run)| == if |run| <= n then |run| else n
    ensures forall k :: 0 <= k < |LogAfter(l, n, run)| ==>
              LogAfter(l, n, run)[k] == l.Index(run[k].x, run[k].y) % 0x10000
  {
    if run != [] {
      var shorter := run[..|run| - 1];
      LogIsAPrefix(l, n, shorter);
      assert forall k :: 0 <= k < |shorter| ==> shorter[k] == run[k];
    }
  }

  lemma {:induction false} UnwrittenBytesAreKept(l: Layout, s: Bytes, run: seq<Write>, i: int)
    requires Drawable(l, |s|, run) && 0 <= i < |s|
    requires forall k :: 0 <= k < |run| ==> l.Index(run[k].x, run[k].y) != i
    ensures BytesAfter(l, s, run)[i] == s[i]
  {
    if run != [] {
      var shorter := run[..|run| - 1];
      assert forall k :: 0 <= k < |shorter| ==> shorter[k] == run[k];
      UnwrittenBytesAreKept(l, s, shorter, i);
    }
  }

  ghost predicate ChangesAreListed(s: Bytes, t: Bytes, log: seq<nat>)
    requires |s| == |t|
  {
    forall i :: 0 <= i < |s| && t[i] != s[i] ==> i in log
  }

  /** Up to the capacity of the log, and with 16-bit indexes wide enough for the frame, no change is missed. */
  lemma ChangedBytesAreLogged(l: Layout, s: Bytes, run: seq<Write>)
    requires l.Valid() && Drawable(l, |s|, run) && Needed(l) <= 0x10000
    requires |run| <= |s| || Needed(l) == 1
    ensures ChangesAreListed(s, BytesAfter(l, s, run), LogAfter(l, |s|, run))
  {
    hide Layout.Index, BytesAfter, LogAfter, Needed;
    var log := LogAfter(l, |s|, run);
    LogIsAPrefix(l, |s|, run);
    forall i | 0 <= i < |s| && BytesAfter(l, s, run)[i] != s[i]
      ensures i in log
    {
      if k :| 0 <= k < |run| && l.Index(run[k].x, run[k].y) == i {
        FrameFitsNeeded(l, run[k].x, run[k].y);
        var first := if |run| <= |s| then k else 0;
        FrameFitsNeeded(l, run[first].x, run[first].y);
        assert log[first] == i;
      } else {
        UnwrittenBytesAreKept(l, s, run, i);
      }
    }
  }

  /** The log never lists a byte beyond 16 bits, so a change there is always missed. */
  lemma HighBytesAreNeverListed(l: Layout, n: nat, run: seq<Write>, i: int)
    requires Drawable(l, n, run) && 0x10000 <= i
    ensures i !in LogAfter(l, n, run)
  {
    LogIsAPrefix(l, n, run);
  }

  /** `n` writes to one pixel. */
  function Repeat(w: Write, n: nat): seq<Write> {
    seq(n, _ => w)
  }

  lemma LastWriteChangesItsByte(l: Layout, s: Bytes, run: seq<Write>, w: Write)
    requires l.Valid() && Drawable(l, |s|, run) && Drawable(l, |s|, run + [w])
    requires Has(l, |s|, w.x, w.y) && Pixel(l, s, w.x, w.y) != Stored(l.format, w.col)
    requires forall k :: 0 <= k < |run| ==> l.Index(run[k].x, run[k].y) != l.Index(w.x, w.y)
    ensures BytesAfter(l, s, run + [w])[l.Index(w.x, w.y)] != s[l.Index(w.x, w.y)]
  {
    hide Layout.Index, Stored, ReadPlace, WritePlace;
    assert (run + [w])[..|run|] == run;
    UnwrittenBytesAreKept(l, s, run, l.Index(w.x, w.y));
    PlotPixel(l, BytesAfter(l, s, run), w.x, w.y, w.col, w.x, w.y);
  }

  /** One write more than the log holds can change a byte that the log does not list. */
  lemma FullLogMissesAChange(l: Layout, s: Bytes, x: int, y: int, w: Write)
    requires l.Valid() && Has(l, |s|, x, y) && Has(l, |s|, w.x, w.y)
    requires l.InFrame(x, y) && l.InFrame(w.x, w.y)
    requires l.Index(x, y) != l.Index(w.x, w.y) && l.Index(x, y) % 0x10000 != l.Index(w.x, w.y)
    requires Pixel(l, s, w.x, w.y) != Stored(l.format, w.col)
    ensures var run := Repeat(Write(x, y, 0), |s|) + [w];
            && |run| == |s| + 1 && Drawable(l, |s|, run)
            && !ChangesAreListed(s, BytesAfter(l, s, run), LogAfter(l, |s|, run))
  {
    hide Layout.Index, Stored, Pixel, BytesAfter, LogAfter;
    var many := Repeat(Write(x, y, 0), |s|);
    var run := many + [w];
    assert Drawable(l, |s|, many) && Drawable(l, |s|, run);
    LastWriteChangesItsByte(l, s, many, w);
    LogIsAPrefix(l, |s|, run);
    var log := LogAfter(l, |s|, run);
    assert forall k :: 0 <= k < |log| ==> log[k] == l.Index(x, y) % 0x10000;
  }

  /** A write to a byte beyond 16 bits is a change that is not listed. */
  lemma HighWriteIsMissed(l: Layout, s: Bytes, w: Write)
    requires l.Valid() && Drawable(l, |s|, [w]) && Has(l, |s|, w.x, w.y) && 0x10000 <= l.Index(w.x, w.y)
    requires Pixel(l, s, w.x, w.y) != Stored(l.format, w.col)
    ensures !ChangesAreListed(s, BytesAfter(l, s, [w]), LogAfter(l, |s|, [w]))
  {
    hide Layout.Index, Stored, Pixel, BytesAfter, LogAfter;
    assert [] + [w] == [w];
    LastWriteChangesItsByte(l, s, [], w);
    HighBytesAreNeverListed(l, |s|, [w], l.Index(w.x, w.y));
  }

  /** Whatever the buffer of `n` bytes holds and whatever is drawn with at most `k` writes, the log lists every
      byte that changed. */
  ghost predicate AlwaysListed(l: Layout, n: nat, k: nat) {
    forall s: Bytes, run: seq<Write> :: |s| == n && |run| <= k && Drawable(l, n, run) ==>
      ChangesAreListed(s, BytesAfter(l, s, run), LogAfter(l, n, run))
  }

  function Black(n: nat): (s: Bytes)
    ensures |s| == n
  {
    seq(n, _ => 0)
  }

  lemma BlackShowsInk(l: Layout, n: nat, x: int, y: int)
    requires Has(l, n, x, y)
    ensures Pixel(l, Black(n), x, y) != Stored(l.format, 1)
  {
    BlackPlace(l.format, l.Place(x, y));
  }

  lemma BlackPlace(f: Format, p: int)
    requires 0 <= p < 8
    ensures ReadPlace(f, 0, p) == 0 && Stored(f, 1) == 1
  {
    hide Count;
    CountIsInjective(p, p);
    NoBits(Count(p));
  }

  lemma NoBits(c: bv8)
    requires c < 8
    ensures (0 as bv8 >> c) & 1 == 0
  {
  }

  /** The log misses nothing exactly when nothing is drawn, or the frame ends within the range of 16-bit indexes
      and there are no more writes than the log has room for; a frame of a single byte needs no more room. */
  lemma AlwaysListedIff(l: Layout, n: nat, k: nat)
    requires l.Valid() && Needed(l) <= n
    ensures AlwaysListed(l, n, k) <==> k == 0 || (Needed(l) <= 0x10000 && (k <= n || Needed(l) == 1))
  {
    if k == 0 || (Needed(l) <= 0x10000 && (k <= n || Needed(l) == 1)) {
      ListedIfRoom(l, n, k);
    } else {
      MissedIfNoRoom(l, n, k);
    }
  }

  lemma ListedIfRoom(l: Layout, n: nat, k: nat)
    requires l.Valid() && Needed(l) <= n && (k == 0 || (Needed(l) <= 0x10000 && (k <= n || Needed(l) == 1)))
    ensures AlwaysListed(l, n, k)
  {
    hide Needed, Drawable, ChangesAreListed;
    forall s: Bytes, run: seq<Write> | |s| == n && |run| <= k && Drawable(l, n, run)
      ensures ChangesAreListed(s, BytesAfter(l, s, run), LogAfter(l, n, run))
    {
      if run == [] {
        NothingChanged(s);
      } else {
        ChangedBytesAreLogged(l, s, run);
      }
    }
  }

  lemma NothingChanged(s: Bytes)
    ensures ChangesAreListed(s, s, [])
  {
  }

  lemma MissedIfNoRoom(l: Layout, n: nat, k: nat)
    requires l.Valid() && Needed(l) <= n && 0 < k && (Needed(l) > 0x10000 || (k > n && Needed(l) != 1))
    ensures !AlwaysListed(l, n, k)
  {
    hide Needed, Layout.Index, ChangesAreListed, BytesAfter, LogAfter, Stored, Pixel;
    var x, y := l.width - 1, l.height - 1;
    var s, w := Black(n), Write(x, y, 1);
    FrameFitsNeeded(l, x, y);
    FrameFitsNeeded(l, 0, 0);
    NeededIsExact(l);
    FirstPixelIsInFirstByte(l);
    BlackShowsInk(l, n, x, y);
    if Needed(l) > 0x10000 {
      HighWriteIsMissed(l, s, w);
    } else {
      FullLogMissesAChange(l, s, 0, 0, w);
    }
  }

  lemma FirstPixelIsInFirstByte(l: Layout)
    requires l.Valid()
    ensures l.Index(0, 0) == 0
  {
  }

  /** One frame as the interpreter draws it: fill, then single pixels, then ask for the changes. */
  method DrawFrame(fb: FrameBuffer, col: bv32, run: seq<Write>) returns (ghost filled: Bytes, changes: seq<nat>)
    requires fb.Valid() && Drawable(fb.layout, fb.buf.Length, run)
    modifies fb`changedCount, fb`changedCleared, fb.buf, fb.changedIndexes
    ensures fb.Valid()
    ensures Filled(fb.layout, old(fb.buf[..]), filled, 0, 0, fb.layout.width, fb.layout.height,
                   Stored(fb.layout.format, col))
    ensures |filled| == fb.buf.Length && fb.buf[..] == BytesAfter(fb.layout, filled, run)
    ensures changes == LogAfter(fb.layout, fb.buf.Length, run) && fb.Log() == changes
    ensures Needed(fb.layout) <= 0x10000 && (|run| <= fb.buf.Length || Needed(fb.layout) == 1) ==>
              ChangesAreListed(filled, fb.buf[..], changes)
  {
    hide Filled, Stored, Plot, Needed;
    fb.Fill(col);
    filled := fb.buf[..];
    for k := 0 to |run|
      invariant fb.Valid() && fb.changedCleared == (k > 0)
      invariant fb.buf[..] == BytesAfter(fb.layout, filled, run[..k])
      invariant fb.Log() == LogAfter(fb.layout, fb.buf.Length, run[..k])
    {
      var r := fb.SetPixel(run[k].x, run[k].y, run[k].col);
      assert run[..k + 1][..k] == run[..k];
    }
    assert run[..|run|] == run;
    changes := fb.GetChanges();
    if Needed(fb.layout) <= 0x10000 && (|run| <= fb.buf.Length || Needed(fb.layout) == 1) {
      ChangedBytesAreLogged(fb.layout, filled, run);
    }
  }
}

/** Whole drawing routines and the log. */
module DrawnChanges {
  import opened Basics
  import opened PixelFormat
  import opened PixelGeometry
  import opened Canvas
  import opened FrameBuffers
  import opened ChangeLog
  import opened Painting
  import opened Line

  lemma {:induction false} NotedKeeps(l: Layout, capacity: nat, j: Journal, points: Points)
    requires l.Valid() && |j.entries| + |points| <= capacity
    ensures |Noted(l, capacity, j, points).entries| <= |j.entries| + |points|
    ensures forall k :: 0 <= k < |points| && l.InFrame(points[k].0, points[k].1) ==>
              && Noted(l, capacity, j, points).cleared
              && l.Index(points[k].0, points[k].1) % 0x10000 in Noted(l, capacity, j, points).entries
  {
    hide Layout.Index;
    if points != [] {
      var init := points[..|points| - 1];
      NotedKeeps(l, capacity, j, init);
      assert forall k :: 0 <= k < |init| ==> init[k] == points[k];
    }
  }

  /** A byte that changed holds a pixel that changed. */
  lemma ChangedPixel(l: Layout, s: Bytes, t: Bytes, i: int) returns (x: int, y: int)
    requires l.Valid() && |s| == |t| && 0 <= i < |s| && s[i] != t[i]
    ensures Has(l, |s|, x, y) && l.Index(x, y) == i && Pixel(l, s, x, y) != Pixel(l, t, x, y)
  {
    hide Layout.Index, ReadPlace;
    if SamePlaces(l.format, s[i], t[i]) {
      PlacesDetermineByte(l.format, s[i], t[i]);
    }
    var p :| 0 <= p < PlacesPerByte(l.format) && ReadPlace(l.format, s[i], p) != ReadPlace(l.format, t[i], p);
    EveryPlaceIsACell(l, i, p);
    x, y := CellAt(l, i, p).0, CellAt(l, i, p).1;
  }

  lemma ChangedIsMarked(l: Layout, s: Bytes, t: Bytes, v: bv8, mark: Mark, x: int, y: int)
    requires Painted(l, s, t, v, mark) && Has(l, |s|, x, y) && Pixel(l, s, x, y) != Pixel(l, t, x, y)
    ensures l.InFrame(x, y) && mark(x, y)
  {
    hide Has, Pixel;
  }

  ghost predicate Within(mark: Mark, points: Points) {
    forall x, y :: mark(x, y) ==> (x, y) in points
  }

  lemma PointIsNoted(l: Layout, capacity: nat, j: Journal, mark: Mark, points: Points, x: int, y: int)
    requires l.Valid() && Needed(l) <= 0x10000 && |j.entries| + |points| <= capacity
    requires Within(mark, points) && l.InFrame(x, y) && mark(x, y)
    ensures l.Index(x, y) in Noted(l, capacity, j, points).entries
  {
    hide Layout.Index, Noted, Needed;
    NotedKeeps(l, capacity, j, points);
    FrameFitsNeeded(l, x, y);
    assert (x, y) in points;
    var k :| 0 <= k < |points| && points[k] == (x, y);
  }

  /** A routine that paints only pixels it writes one at a time, with room left in the log, lists every change. */
  lemma PaintedIsListed(l: Layout, s: Bytes, j: Journal, t: Bytes, v: bv8, mark: Mark, points: Points)
    requires l.Valid() && Needed(l) <= 0x10000 && |j.entries| + |points| <= |s|
    requires Painted(l, s, t, v, mark) && Within(mark, points)
    ensures ChangesAreListed(s, t, Noted(l, |s|, j, points).entries)
  {
    assert |t| == |s|;
    hide Layout.Index, Pixel, Noted, Needed, Painted, Within;
    forall i | 0 <= i < |s| && t[i] != s[i]
      ensures i in Noted(l, |s|, j, points).entries
    {
      var x, y := ChangedPixel(l, s, t, i);
      ChangedIsMarked(l, s, t, v, mark, x, y);
      PointIsNoted(l, |s|, j, mark, points, x, y);
    }
  }

  /** Before anything is painted one can tell whether the log will do: each pixel about to change must have its byte
      listed already. Rectangle fills, the spans of filled ellipses and those of polygons log nothing themselves. */
  ghost predicate Foreseen(l: Layout, s: Bytes, v: bv8, mark: Mark, log: seq<nat>) {
    forall x, y :: Has(l, |s|, x, y) && l.InFrame(x, y) && mark(x, y) && Pixel(l, s, x, y) != v ==> l.Index(x, y) in log
  }

  lemma ListedIffForeseen(l: Layout, s: Bytes, t: Bytes, v: bv8, mark: Mark, log: seq<nat>)
    requires l.Valid() && Painted(l, s, t, v, mark)
    ensures |t| == |s|
    ensures ChangesAreListed(s, t, log) <==> Foreseen(l, s, v, mark, log)
  {
    hide Layout.Index, ReadPlace;
    if Foreseen(l, s, v, mark, log) {
      forall i | 0 <= i < |s| && t[i] != s[i]
        ensures i in log
      {
        var x, y := ChangedPixel(l, s, t, i);
        ChangedIsMarked(l, s, t, v, mark, x, y);
      }
    }
    if ChangesAreListed(s, t, log) {
      forall x, y | Has(l, |s|, x, y) && l.InFrame(x, y) && mark(x, y) && Pixel(l, s, x, y) != v
        ensures l.Index(x, y) in log
      {
        assert Pixel(l, t, x, y) == v;
        assert t[l.Index(x, y)] != s[l.Index(x, y)];
      }
    }
  }

  /** Changes that are listed do not matter to the question. */
  lemma ListedInParts(s: Bytes, m: Bytes, t: Bytes, log: seq<nat>)
    requires |s| == |m| == |t| && ChangesAreListed(s, m, log)
    ensures ChangesAreListed(s, t, log) <==> ChangesAreListed(m, t, log)
  {
  }

  /** A frame followed by a rectangle: what `get_changes` said before it is still complete exactly when each pixel that
      the rectangle is about to change lies in a byte listed already. */
  method DrawFrameAndBox(fb: FrameBuffer, col: bv32, run: seq<Write>, x: int, y: int, w: int, h: int, ink: bv32)
    returns (ghost filled: Bytes, ghost drawn: Bytes, changes: seq<nat>)
    requires fb.Valid() && Drawable(fb.layout, fb.buf.Length, run)
    modifies fb`changedCount, fb`changedCleared, fb.buf, fb.changedIndexes
    ensures fb.Valid() && |filled| == |drawn| == fb.buf.Length && fb.Log() == changes
    ensures drawn == BytesAfter(fb.layout, filled, run) && changes == LogAfter(fb.layout, fb.buf.Length, run)
    ensures Painted(fb.layout, drawn, fb.buf[..], Stored(fb.layout.format, ink), Box(x, y, w, h))
    ensures Needed(fb.layout) <= 0x10000 && (|run| <= fb.buf.Length || Needed(fb.layout) == 1) ==>
              (ChangesAreListed(filled, fb.buf[..], changes) <==>
               Foreseen(fb.layout, drawn, Stored(fb.layout.format, ink), Box(x, y, w, h), changes))
  {
    hide Filled, Stored, Needed, BytesAfter, LogAfter, Painted, ChangesAreListed, Foreseen;
    filled, changes := DrawFrame(fb, col, run);
    drawn := fb.buf[..];
    PaintBox(fb, x, y, w, h, ink);
    ListedIffForeseen(fb.layout, drawn, fb.buf[..], Stored(fb.layout.format, ink), Box(x, y, w, h), changes);
    if Needed(fb.layout) <= 0x10000 && (|run| <= fb.buf.Length || Needed(fb.layout) == 1) {
      ListedInParts(filled, drawn, fb.buf[..], changes);
    }
  }

  lemma {:induction false} WalkPointsAt(w: Walk, n: int, i: int)
    requires w.Valid() && 0 <= i < n
    ensures |WalkPoints(w, n)| == n && WalkPoints(w, n)[i] == WalkPoint(w, i)
    decreases n
  {
    if i < n - 1 {
      WalkPointsAt(w, n - 1, i);
    } else if n > 1 {
      WalkPointsAt(w, n - 1, 0);
    }
  }

  /** Every change that a line makes is listed, if the log has room for one entry per point. */
  lemma LineIsListed(l: Layout, s: Bytes, j: Journal, t: Bytes, v: bv8, x1: int, y1: int, x2: int, y2: int)
    requires l.Valid() && Needed(l) <= 0x10000
    requires |j.entries| + |LinePoints(x1, y1, x2, y2)| <= |s| && Painted(l, s, t, v, LineMark(x1, y1, x2, y2))
    ensures ChangesAreListed(s, t, Noted(l, |s|, j, LinePoints(x1, y1, x2, y2)).entries)
  {
    hide Painted, Noted, Needed, Setup, OnWalk, WalkPoint, ChangesAreListed;
    var w, mark := Setup(x1, y1, x2, y2), LineMark(x1, y1, x2, y2);
    forall x, y | mark(x, y)
      ensures (x, y) in LinePoints(x1, y1, x2, y2)
    {
      assert OnLine(x1, y1, x2, y2, x, y);
      OnWalkIsAPoint(w, w.dx + 1, x, y);
      var i :| 0 <= i < w.dx + 1 && (x, y) == WalkPoint(w, i);
      WalkPointsAt(w, w.dx + 1, i);
    }
    PaintedIsListed(l, s, j, t, v, mark, LinePoints(x1, y1, x2, y2));
  }
}
