/** What a drawing routine paints, as a set of pixels clipped to the frame. */
module Painting {
  import opened Basics
  import opened PixelFormat
  import opened Canvas
  import opened FrameBuffers

  type Mark = (int, int) -> bool

  /** `t` is `s` with `v` on the marked pixels of the frame; every other cell is kept. */
  ghost predicate Painted(l: Layout, s: Bytes, t: Bytes, v: bv8, mark: Mark) {
    && |t| == |s|
    && forall x, y :: Has(l, |s|, x, y) ==>
         Pixel(l, t, x, y) == if l.InFrame(x, y) && mark(x, y) then v else Pixel(l, s, x, y)
  }

  lemma NothingPainted(l: Layout, s: Bytes, v: bv8, mark: Mark)
    requires forall x, y :: l.InFrame(x, y) ==> !mark(x, y)
    ensures Painted(l, s, s, v, mark)
  {
  }

  lemma PaintBoth(l: Layout, s: Bytes, m: Bytes, t: Bytes, v: bv8, f: Mark, g: Mark, both: Mark)
    requires Painted(l, s, m, v, f) && Painted(l, m, t, v, g)
    requires forall x, y :: l.InFrame(x, y) ==> both(x, y) == (f(x, y) || g(x, y))
    ensures Painted(l, s, t, v, both)
  {
    forall x, y | Has(l, |s|, x, y)
      ensures Pixel(l, t, x, y) == if l.InFrame(x, y) && both(x, y) then v else Pixel(l, s, x, y)
    {
      assert Has(l, |m|, x, y);
    }
  }

  lemma RepaintAs(l: Layout, s: Bytes, t: Bytes, v: bv8, f: Mark, g: Mark)
    requires Painted(l, s, t, v, f)
    requires forall x, y :: l.InFrame(x, y) ==> f(x, y) == g(x, y)
    ensures Painted(l, s, t, v, g)
  {
  }

  function Point(px: int, py: int): Mark {
    (x, y) => x == px && y == py
  }

  function Box(x0: int, y0: int, w: int, h: int): Mark {
    (x, y) => x0 <= x < x0 + w && y0 <= y < y0 + h
  }

  /** `setpixel_checked`: a pixel outside the frame, or masked off, is left out. */
  method SetChecked(fb: FrameBuffer, x: int, y: int, col: bv32, mask: bool)
    requires fb.Valid()
    modifies fb`changedCount, fb`changedCleared, fb.buf, fb.changedIndexes
    ensures fb.Valid()
    ensures Painted(fb.layout, old(fb.buf[..]), fb.buf[..], Stored(fb.layout.format, col),
                    (px, py) => mask && px == x && py == y)
    ensures fb.Logged() == Noted(fb.layout, fb.buf.Length, old(fb.Logged()), if mask then [(x, y)] else [])
  {
    hide Stored, Needed, Layout.Index, Layout.Place, ReadPlace, WritePlace, LogPixel, Noted;
    NotedNothing(fb.layout, fb.buf.Length, fb.Logged());
    NotedOne(fb.layout, fb.buf.Length, fb.Logged(), (x, y));
    if mask && 0 <= x < fb.layout.width && 0 <= y < fb.layout.height {
      var r := fb.SetPixel(x, y, col);
      PlotFills(fb.layout, old(fb.buf[..]), x, y, col);
    }
  }

  /** The clipped rectangle fill, seen as a mark. */
  method PaintBox(fb: FrameBuffer, x: int, y: int, w: int, h: int, col: bv32)
    requires fb.Valid()
    modifies fb.buf
    ensures fb.Valid()
    ensures Painted(fb.layout, old(fb.buf[..]), fb.buf[..], Stored(fb.layout.format, col), Box(x, y, w, h))
    ensures fb.Logged() == old(fb.Logged())
  {
    hide Stored, Needed;
    fb.FillRect(x, y, w, h, col);
  }
}

/** The Bresenham line. */
module Line {
  import opened Basics
  import opened PixelFormat
  import opened Canvas
  import opened FrameBuffers
  import opened Painting

  /** The line after the exchange of axes for steep slopes: `x` runs along the major axis. */
  datatype Walk = Walk(steep: bool, x: int, y: int, sx: int, sy: int, dx: int, dy: int) {
    ghost predicate Valid() {
      0 <= dy <= dx && (sx == 1 || sx == -1) && (sy == 1 || sy == -1)
    }
  }

  function Sign(a: int): int { if a > 0 then 1 else -1 }

  function Setup(x1: int, y1: int, x2: int, y2: int): (w: Walk)
    ensures w.Valid()
  {
    if Abs(y2 - y1) > Abs(x2 - x1) then
      Walk(true, y1, x1, Sign(y2 - y1), Sign(x2 - x1), Abs(y2 - y1), Abs(x2 - x1))
    else
      Walk(false, x1, y1, Sign(x2 - x1), Sign(y2 - y1), Abs(x2 - x1), Abs(y2 - y1))
  }

  /** The minor distance after `i` steps: `i * dy / dx` rounded to the nearest integer, halves up. */
  function Rounded(w: Walk, i: int): int
    requires w.Valid()
  {
    if w.dx == 0 then 0 else (2 * w.dy * i + w.dx) / (2 * w.dx)
  }

  /** The pixel is one of the first `n` of the walk. */
  predicate OnWalk(w: Walk, n: int, px: int, py: int)
    requires w.Valid()
  {
    var major := if w.steep then py else px;
    var minor := if w.steep then px else py;
    var i := w.sx * (major - w.x);
    0 <= i < n && minor == w.y + w.sy * Rounded(w, i)
  }

  predicate OnLine(x1: int, y1: int, x2: int, y2: int, px: int, py: int) {
    var w := Setup(x1, y1, x2, y2);
    OnWalk(w, w.dx + 1, px, py)
  }

  lemma RoundedBounds(w: Walk, i: int, k: int)
    requires w.Valid() && 0 < w.dx
    ensures 2 * w.dx * k <= 2 * w.dy * i + w.dx < 2 * w.dx * (k + 1) <==> k == Rounded(w, i)
  {
    var n, d := 2 * w.dy * i + w.dx, 2 * w.dx;
    assert n == n / d * d + n % d;
    if d * k <= n < d * (k + 1) {
      assert d * (k - n / d) < d && d * (n / d - k) < d;
      SmallMultiple(d, k - n / d);
      SmallMultiple(d, n / d - k);
    }
  }

  lemma SmallMultiple(d: int, k: int)
    requires 0 < d && d * k < d
    ensures k <= 0
  {
  }

  lemma OneStep(w: Walk, i: int)
    requires w.Valid() && 0 < w.dx
    ensures Rounded(w, i) <= Rounded(w, i + 1) <= Rounded(w, i) + 1
  {
    hide Rounded;
    var k, k' := Rounded(w, i), Rounded(w, i + 1);
    RoundedBounds(w, i, k);
    RoundedBounds(w, i + 1, k');
    assert 2 * w.dy * (i + 1) == 2 * w.dy * i + 2 * w.dy;
    NextQuotient(2 * w.dx, 2 * w.dy * i + w.dx, 2 * w.dy, k, k');
  }

  /** Adding less than the divisor moves the quotient by one at most. */
  lemma NextQuotient(d: int, n: int, more: int, k: int, k': int)
    requires 0 < d && 0 <= more <= d && d * k <= n < d * (k + 1) && d * k' <= n + more < d * (k' + 1)
    ensures k <= k' <= k + 1
  {
    assert d * (k + 1) == d * k + d && d * (k' + 1) == d * k' + d;
    assert d * (k - k') == d * k - d * k' && d * (k' - k - 1) == d * k' - d * k - d;
    SmallMultiple(d, k - k');
    SmallMultiple(d, k' - k - 1);
  }

  function Prefix(w: Walk, n: int): Mark
    requires w.Valid()
  {
    (px, py) => OnWalk(w, n, px, py)
  }

  function LineMark(x1: int, y1: int, x2: int, y2: int): Mark {
    (px, py) => OnLine(x1, y1, x2, y2, px, py)
  }

  /** Point `i` of the walk, in pixel coordinates. */
  function WalkPoint(w: Walk, i: int): (int, int)
    requires w.Valid()
  {
    var major, minor := w.x + w.sx * i, w.y + w.sy * Rounded(w, i);
    if w.steep then (minor, major) else (major, minor)
  }

  lemma OnWalkIsAPoint(w: Walk, n: int, px: int, py: int)
    requires w.Valid()
    ensures OnWalk(w, n, px, py) <==> exists i :: 0 <= i < n && (px, py) == WalkPoint(w, i)
  {
    hide Rounded;
    var major := if w.steep then py else px;
    var i := w.sx * (major - w.x);
    SignTwice(w.sx, major - w.x);
    if OnWalk(w, n, px, py) {
      assert (px, py) == WalkPoint(w, i);
    }
    if j :| 0 <= j < n && (px, py) == WalkPoint(w, j) {
      SignTwice(w.sx, j);
      assert major - w.x == w.sx * j;
    }
  }

  lemma SignTwice(s: int, k: int)
    requires s == 1 || s == -1
    ensures s * (s * k) == k
  {
    if s == 1 {
      assert s * k == k;
    } else {
      assert s * k == -k;
    }
  }

  lemma OneMorePoint(w: Walk, n: int, px: int, py: int)
    requires w.Valid() && 0 <= n
    ensures OnWalk(w, n + 1, px, py) <==> OnWalk(w, n, px, py) || (px, py) == WalkPoint(w, n)
  {
    hide Rounded;
  }

  /** The inner loop: moves the minor coordinate while the error is not negative. It runs at most
      once, because the slope is at most one. */
  method StepMinor(ghost w: Walk, ghost i: int, dx: int, sy: int, y: int, e: int) returns (y': int, e': int)
    requires w.Valid() && 0 < w.dx == dx && sy == w.sy && 0 <= i
    requires y == w.y + sy * Rounded(w, i)
    requires e == 2 * w.dy * (i + 1) - dx - 2 * dx * Rounded(w, i)
    ensures y' == w.y + sy * Rounded(w, i + 1)
    ensures e' == 2 * w.dy * (i + 1) - dx - 2 * dx * Rounded(w, i + 1)
  {
    hide Rounded;
    y', e' := y, e;
    ghost var k := Rounded(w, i);
    OneStep(w, i);
    StepSign(w, i);
    while e' >= 0
      invariant k == Rounded(w, i) || k == Rounded(w, i + 1)
      invariant y' == w.y + sy * k
      invariant e' == 2 * w.dy * (i + 1) - dx - 2 * dx * k
      decreases e'
    {
      y' := y' + sy;
      e' := e' - 2 * dx;
      assert 2 * dx * (k + 1) == 2 * dx * k + 2 * dx;
      assert sy * (k + 1) == sy * k + sy;
      k := k + 1;
    }
  }

  /** The sign of the error says which of the two next points is nearer. */
  lemma StepSign(w: Walk, i: int)
    requires w.Valid() && 0 < w.dx
    ensures 2 * w.dy * (i + 1) - w.dx - 2 * w.dx * Rounded(w, i) >= 0 <==> Rounded(w, i + 1) == Rounded(w, i) + 1
    ensures 2 * w.dy * (i + 1) - w.dx - 2 * w.dx * Rounded(w, i + 1) < 0
  {
    hide Rounded;
    OneStep(w, i);
    var k, k' := Rounded(w, i), Rounded(w, i + 1);
    RoundedBounds(w, i + 1, k);
    RoundedBounds(w, i + 1, k');
    RoundedBounds(w, i, k);
  }

  lemma PrefixGrows(l: Layout, s: Bytes, m: Bytes, t: Bytes, v: bv8, w: Walk, n: int)
    requires w.Valid() && 0 <= n
    requires Painted(l, s, m, v, Prefix(w, n))
    requires Painted(l, m, t, v, Point(WalkPoint(w, n).0, WalkPoint(w, n).1))
    ensures Painted(l, s, t, v, Prefix(w, n + 1))
  {
    hide Painted, OnWalk, WalkPoint;
    forall px, py | l.InFrame(px, py)
      ensures Prefix(w, n + 1)(px, py) ==
              (Prefix(w, n)(px, py) || Point(WalkPoint(w, n).0, WalkPoint(w, n).1)(px, py))
    {
      OneMorePoint(w, n, px, py);
    }
    PaintBoth(l, s, m, t, v, Prefix(w, n), Point(WalkPoint(w, n).0, WalkPoint(w, n).1), Prefix(w, n + 1));
  }

  /** Paints one point of the walk, if it is in the frame. */
  method PaintPoint(fb: FrameBuffer, x: int, y: int, col: bv32)
    requires fb.Valid()
    modifies fb`changedCount, fb`changedCleared, fb.buf, fb.changedIndexes
    ensures fb.Valid()
    ensures Painted(fb.layout, old(fb.buf[..]), fb.buf[..], Stored(fb.layout.format, col), Point(x, y))
    ensures fb.Logged() == Note(fb.layout, fb.buf.Length, old(fb.Logged()), (x, y))
  {
    hide Stored, Needed, Layout.Index, Layout.Place, ReadPlace, WritePlace, LogPixel;
    if 0 <= x < fb.layout.width && 0 <= y < fb.layout.height {
      var r := fb.SetPixel(x, y, col);
      PlotFills(fb.layout, old(fb.buf[..]), x, y, col);
    }
  }

  lemma WalkEnds(w: Walk)
    requires w.Valid()
    ensures Rounded(w, 0) == 0 && Rounded(w, w.dx) == w.dy
  {
    if 0 < w.dx {
      assert 2 * w.dx * w.dy == 2 * w.dy * w.dx;
      RoundedBounds(w, w.dx, w.dy);
      RoundedBounds(w, 0, 0);
    }
  }

  lemma SignTimesAbs(a: int)
    ensures Sign(a) * Abs(a) == a
  {
  }

  /** The walk starts at the first endpoint and ends exactly at the second. */
  lemma Endpoint(x1: int, y1: int, x2: int, y2: int)
    ensures var w := Setup(x1, y1, x2, y2); WalkPoint(w, w.dx) == (x2, y2)
    ensures WalkPoint(Setup(x1, y1, x2, y2), 0) == (x1, y1)
  {
    hide Rounded, Sign, Abs;
    WalkEnds(Setup(x1, y1, x2, y2));
    SignTimesAbs(x2 - x1);
    SignTimesAbs(y2 - y1);
  }

  lemma WholeLine(l: Layout, s: Bytes, t: Bytes, v: bv8, x1: int, y1: int, x2: int, y2: int)
    requires var w := Setup(x1, y1, x2, y2); Painted(l, s, t, v, Prefix(w, w.dx + 1))
    ensures Painted(l, s, t, v, LineMark(x1, y1, x2, y2))
  {
    hide Painted, Setup, OnWalk;
    var w := Setup(x1, y1, x2, y2);
    RepaintAs(l, s, t, v, Prefix(w, w.dx + 1), LineMark(x1, y1, x2, y2));
  }

  /** The first `n` points of the walk, in order. */
  function WalkPoints(w: Walk, n: int): Points
    requires w.Valid()
  {
    if n <= 0 then [] else WalkPoints(w, n - 1) + [WalkPoint(w, n - 1)]
  }

  function LinePoints(x1: int, y1: int, x2: int, y2: int): Points {
    var w := Setup(x1, y1, x2, y2);
    WalkPoints(w, w.dx + 1)
  }

  /** Paints point `i` of the walk after the first `i` of them. */
  method PaintWalk(fb: FrameBuffer, ghost w: Walk, ghost i: int, ghost s: Bytes, ghost j: Journal,
                   steep: bool, x: int, y: int, col: bv32)
    requires fb.Valid() && w.Valid() && 0 <= i
    requires Painted(fb.layout, s, fb.buf[..], Stored(fb.layout.format, col), Prefix(w, i))
    requires fb.Logged() == Noted(fb.layout, fb.buf.Length, j, WalkPoints(w, i))
    requires WalkPoint(w, i) == if steep then (y, x) else (x, y)
    modifies fb`changedCount, fb`changedCleared, fb.buf, fb.changedIndexes
    ensures fb.Valid()
    ensures Painted(fb.layout, s, fb.buf[..], Stored(fb.layout.format, col), Prefix(w, i + 1))
    ensures fb.Logged() == Noted(fb.layout, fb.buf.Length, j, WalkPoints(w, i + 1))
  {
    hide Painted, Stored, Needed, WalkPoint, OnWalk, Note, Noted;
    NotedOneMore(fb.layout, fb.buf.Length, j, WalkPoints(w, i), WalkPoint(w, i));
    if steep {
      PaintPoint(fb, y, x, col);
    } else {
      PaintPoint(fb, x, y, col);
    }
    PrefixGrows(fb.layout, s, old(fb.buf[..]), fb.buf[..], Stored(fb.layout.format, col), w, i);
  }

  /** The coordinates and the error term after `i` steps. */
  ghost predicate At(w: Walk, i: int, x: int, y: int, e: int)
    requires w.Valid()
  {
    && x == w.x + w.sx * i && y == w.y + w.sy * Rounded(w, i)
    && e == 2 * w.dy * (i + 1) - w.dx - 2 * w.dx * Rounded(w, i)
  }

  /** What one turn of the loop does after its pixel. */
  method StepWalk(ghost i: int, w: Walk, x: int, y: int, e: int) returns (x': int, y': int, e': int)
    requires w.Valid() && 0 < w.dx && 0 <= i && At(w, i, x, y, e)
    ensures At(w, i + 1, x', y', e')
  {
    hide Rounded;
    y', e' := StepMinor(w, i, w.dx, w.sy, y, e);
    x' := x + w.sx;
    e' := e' + 2 * w.dy;
    assert w.sx * (i + 1) == w.sx * i + w.sx;
    assert 2 * w.dy * (i + 1 + 1) == 2 * w.dy * (i + 1) + 2 * w.dy;
  }

  /** The signs, the lengths and the exchange of axes. */
  method Prepare(x1: int, y1: int, x2: int, y2: int) returns (w: Walk)
    ensures w == Setup(x1, y1, x2, y2)
  {
    var dx, dy := x2 - x1, y2 - y1;
    var sx, sy;
    if dx > 0 { sx := 1; } else { dx := -dx; sx := -1; }
    if dy > 0 { sy := 1; } else { dy := -dy; sy := -1; }
    var x, y := x1, y1;
    var steep := false;
    if dy > dx {
      x, y := y, x;
      dx, dy := dy, dx;
      sx, sy := sy, sx;
      steep := true;
    }
    w := Walk(steep, x, y, sx, sy, dx, dy);
  }

  method DrawLine(fb: FrameBuffer, x1: int, y1: int, x2: int, y2: int, col: bv32)
    requires fb.Valid()
    modifies fb`changedCount, fb`changedCleared, fb.buf, fb.changedIndexes
    ensures fb.Valid()
    ensures Painted(fb.layout, old(fb.buf[..]), fb.buf[..], Stored(fb.layout.format, col), LineMark(x1, y1, x2, y2))
    ensures fb.Logged() == Noted(fb.layout, fb.buf.Length, old(fb.Logged()), LinePoints(x1, y1, x2, y2))
  {
    hide Painted, Stored, Needed, OnWalk, Setup, At, Noted;
    NotedNothing(fb.layout, fb.buf.Length, fb.Logged());
    var w := Prepare(x1, y1, x2, y2);
    Endpoint(x1, y1, x2, y2);
    WalkStarts(fb.layout, fb.buf[..], Stored(fb.layout.format, col), w);
    var x, y, e := w.x, w.y, 2 * w.dy - w.dx;
    for i := 0 to w.dx
      invariant fb.Valid()
      invariant Painted(fb.layout, old(fb.buf[..]), fb.buf[..], Stored(fb.layout.format, col), Prefix(w, i))
      invariant fb.Logged() == Noted(fb.layout, fb.buf.Length, old(fb.Logged()), WalkPoints(w, i))
      invariant At(w, i, x, y, e)
    {
      AtIsWalkPoint(w, i, x, y, e);
      PaintWalk(fb, w, i, old(fb.buf[..]), old(fb.Logged()), w.steep, x, y, col);
      x, y, e := StepWalk(i, w, x, y, e);
    }
    PaintWalk(fb, w, w.dx, old(fb.buf[..]), old(fb.Logged()), false, x2, y2, col);
    WholeLine(fb.layout, old(fb.buf[..]), fb.buf[..], Stored(fb.layout.format, col), x1, y1, x2, y2);
  }

  lemma AtIsWalkPoint(w: Walk, i: int, x: int, y: int, e: int)
    requires w.Valid() && At(w, i, x, y, e)
    ensures WalkPoint(w, i) == if w.steep then (y, x) else (x, y)
  {
    hide Rounded;
  }

  lemma WalkStarts(l: Layout, s: Bytes, v: bv8, w: Walk)
    requires w.Valid()
    ensures At(w, 0, w.x, w.y, 2 * w.dy - w.dx)
    ensures Painted(l, s, s, v, Prefix(w, 0))
  {
    if 0 < w.dx {
      RoundedBounds(w, 0, 0);
    }
    NothingPainted(l, s, v, Prefix(w, 0));
  }

  /** The walk never strays more than half a pixel from the ideal line, nor out of the box of its
      endpoints. */
  lemma LineIsNearest(w: Walk, i: int)
    requires w.Valid() && 0 <= i <= w.dx
    ensures -w.dx <= 2 * (w.dx * Rounded(w, i) - w.dy * i) <= w.dx
    ensures 0 <= Rounded(w, i) <= w.dy
  {
    hide Rounded;
    WalkEnds(w);
    if 0 < w.dx {
      RoundedBounds(w, i, Rounded(w, i));
      RoundedIsMonotone(w, 0, i);
      RoundedIsMonotone(w, i, w.dx);
    }
  }

  /** Consecutive points are different neighbours, diagonals included. */
  lemma LineIsConnected(w: Walk, i: int)
    requires w.Valid() && 0 <= i < w.dx
    ensures var (a, b) := WalkPoint(w, i);
            var (c, d) := WalkPoint(w, i + 1);
            -1 <= c - a <= 1 && -1 <= d - b <= 1 && (a, b) != (c, d)
  {
    hide Rounded;
    OneStep(w, i);
  }

  lemma {:induction false} RoundedIsMonotone(w: Walk, i: int, j: int)
    requires w.Valid() && 0 < w.dx && i <= j
    ensures Rounded(w, i) <= Rounded(w, j)
    decreases j - i
  {
    hide Rounded;
    if i < j {
      OneStep(w, i);
      RoundedIsMonotone(w, i + 1, j);
    }
  }

  predicate Between(a1: int, a: int, a2: int) {
    a1 <= a <= a2 || a2 <= a <= a1
  }

  /** `b` is `b1` or lies from there in the direction of `b2`. */
  predicate Towards(b1: int, b: int, b2: int) {
    (b1 <= b2 ==> b1 <= b) && (b2 <= b1 ==> b <= b1)
  }

  /** The minor distance from the first endpoint is the exact one, rounded to the nearest integer and halves away from
      that endpoint. */
  predicate Tracks(a1: int, b1: int, a2: int, b2: int, a: int, b: int) {
    && Between(a1, a, a2) && Towards(b1, b, b2)
    && 2 * Abs(a2 - a1) * Abs(b - b1) <= 2 * Abs(b2 - b1) * Abs(a - a1) + Abs(a2 - a1)
    && 2 * Abs(b2 - b1) * Abs(a - a1) + Abs(a2 - a1) < 2 * Abs(a2 - a1) * (Abs(b - b1) + 1)
  }

  /** The pixels of a line, by the coordinates of its endpoints alone. */
  lemma LineIff(x1: int, y1: int, x2: int, y2: int, px: int, py: int)
    ensures LineMark(x1, y1, x2, y2)(px, py) <==>
            if x1 == x2 && y1 == y2 then px == x1 && py == y1
            else if Abs(y2 - y1) > Abs(x2 - x1) then Tracks(y1, x1, y2, x2, py, px)
            else Tracks(x1, y1, x2, y2, px, py)
  {
    hide Rounded, Sign, Abs, Tracks;
    var w := Setup(x1, y1, x2, y2);
    NoDistance(x2 - x1);
    NoDistance(y2 - y1);
    if x1 == x2 && y1 == y2 {
      NoSteps(x1, y1, w, px, py);
    } else if w.steep {
      WalkTracks(w, y1, x1, y2, x2, py, px);
    } else {
      WalkTracks(w, x1, y1, x2, y2, px, py);
    }
  }

  lemma NoDistance(a: int)
    ensures Abs(a) == 0 <==> a == 0
  {
  }

  lemma NoSteps(x1: int, y1: int, w: Walk, px: int, py: int)
    requires w == Setup(x1, y1, x1, y1)
    ensures OnWalk(w, w.dx + 1, px, py) <==> px == x1 && py == y1
  {
  }

  lemma WalkTracks(w: Walk, a1: int, b1: int, a2: int, b2: int, a: int, b: int)
    requires w.Valid() && w.x == a1 && w.y == b1 && w.sx == Sign(a2 - a1) && w.sy == Sign(b2 - b1)
    requires w.dx == Abs(a2 - a1) > 0 && w.dy == Abs(b2 - b1)
    ensures 0 <= w.sx * (a - w.x) <= w.dx && b == w.y + w.sy * Rounded(w, w.sx * (a - w.x)) <==>
            Tracks(a1, b1, a2, b2, a, b)
  {
    hide Rounded, Sign, Abs, Between, Towards;
    var i := w.sx * (a - w.x);
    StepsBetween(a1, a2, a);
    if 0 <= i <= w.dx {
      RoundedIsMonotone(w, 0, i);
      RoundedIsMonotone(w, i, w.dx);
      WalkEnds(w);
      NoDistance(b2 - b1);
      DistanceTowards(b1, b2, b, Rounded(w, i));
      RoundedBounds(w, i, Abs(b - b1));
    }
  }

  lemma StepsBetween(a1: int, a2: int, a: int)
    requires 0 < Abs(a2 - a1)
    ensures 0 <= Sign(a2 - a1) * (a - a1) <= Abs(a2 - a1) <==> Between(a1, a, a2)
    ensures Between(a1, a, a2) ==> Sign(a2 - a1) * (a - a1) == Abs(a - a1)
  {
  }

  lemma DistanceTowards(b1: int, b2: int, b: int, r: int)
    requires 0 <= r && (b1 == b2 ==> r == 0)
    ensures b == b1 + Sign(b2 - b1) * r <==> Towards(b1, b, b2) && Abs(b - b1) == r
  {
  }
}
