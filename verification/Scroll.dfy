/** Scrolling in place. */
module Scroll {
  import opened Arithmetic
  import opened Basics
  import opened PixelFormat
  import opened PixelGeometry
  import opened Canvas
  import opened FrameBuffers

  /** The pixel is in the frame and so is the pixel it takes its colour from. */
  predicate Moves(l: Layout, xs: int, ys: int, x: int, y: int) {
    l.InFrame(x, y) && l.InFrame(x - xs, y - ys)
  }

  lemma FrameCells(l: Layout, n: nat, x: int, y: int)
    requires l.Valid() && Needed(l) <= n && l.InFrame(x, y)
    ensures Has(l, n, x, y)
  {
    FrameFitsNeeded(l, x, y);
  }

  /** All pixels moved at once: every target takes the old colour of its source. */
  ghost predicate Scrolled(l: Layout, s: Bytes, t: Bytes, xs: int, ys: int) {
    && |t| == |s|
    && (forall x, y :: Has(l, |s|, x, y) && Moves(l, xs, ys, x, y) ==>
          Has(l, |s|, x - xs, y - ys) && Pixel(l, t, x, y) == Pixel(l, s, x - xs, y - ys))
    && (forall x, y :: Has(l, |s|, x, y) && !Moves(l, xs, ys, x, y) ==>
          Pixel(l, t, x, y) == Pixel(l, s, x, y))
  }

  /** `a` is passed before `b` when counting by `d`. */
  predicate Before(d: int, a: int, b: int) {
    if d == 1 then a < b else a > b
  }

  predicate Done(l: Layout, xs: int, ys: int, dx: int, dy: int, x0: int, y0: int, x: int, y: int) {
    Moves(l, xs, ys, x, y) && (Before(dy, y, y0) || (y == y0 && Before(dx, x, x0)))
  }

  /** The scroll has reached (x0, y0): the pixels passed have their new colour, the others the old one. */
  ghost predicate Reached(l: Layout, s: Bytes, t: Bytes, xs: int, ys: int, dx: int, dy: int, x0: int, y0: int) {
    && |t| == |s|
    && (forall x, y :: Has(l, |s|, x, y) && Done(l, xs, ys, dx, dy, x0, y0, x, y) ==>
          Has(l, |s|, x - xs, y - ys) && Pixel(l, t, x, y) == Pixel(l, s, x - xs, y - ys))
    && (forall x, y :: Has(l, |s|, x, y) && !Done(l, xs, ys, dx, dy, x0, y0, x, y) ==>
          Pixel(l, t, x, y) == Pixel(l, s, x, y))
  }

  /** The traversal order never reads a pixel that has been overwritten. */
  lemma SourceIsStillOld(l: Layout, s: Bytes, t: Bytes, xs: int, ys: int, dx: int, dy: int, x: int, y: int)
    requires l.Valid() && Needed(l) <= |s|
    requires dx == (if xs < 0 then 1 else -1) && dy == (if ys < 0 then 1 else -1)
    requires Reached(l, s, t, xs, ys, dx, dy, x, y) && Moves(l, xs, ys, x, y)
    ensures Has(l, |s|, x, y) && Has(l, |s|, x - xs, y - ys)
    ensures Pixel(l, t, x - xs, y - ys) == Pixel(l, s, x - xs, y - ys)
  {
    hide Has, Pixel, Needed;
    FrameCells(l, |s|, x, y);
    FrameCells(l, |s|, x - xs, y - ys);
    assert !Done(l, xs, ys, dx, dy, x, y, x - xs, y - ys);
  }

  lemma OneMove(l: Layout, s: Bytes, t: Bytes, xs: int, ys: int, dx: int, dy: int, x: int, y: int, col: bv32)
    requires l.Valid() && Needed(l) <= |s|
    requires dx == (if xs < 0 then 1 else -1) && dy == (if ys < 0 then 1 else -1)
    requires Reached(l, s, t, xs, ys, dx, dy, x, y) && Moves(l, xs, ys, x, y)
    requires Has(l, |s|, x, y) && Has(l, |s|, x - xs, y - ys)
    requires Stored(l.format, col) == Pixel(l, t, x - xs, y - ys)
    ensures Reached(l, s, Plot(l, t, x, y, col), xs, ys, dx, dy, x + dx, y)
  {
    hide Stored, Needed, Done, Has, Pixel, Plot, Moves;
    var r := Plot(l, t, x, y, col);
    PlotKeepsLength(l, t, x, y, col);
    forall x', y' | Has(l, |s|, x', y')
      ensures Done(l, xs, ys, dx, dy, x + dx, y, x', y') ==>
                Has(l, |s|, x' - xs, y' - ys) && Pixel(l, r, x', y') == Pixel(l, s, x' - xs, y' - ys)
      ensures !Done(l, xs, ys, dx, dy, x + dx, y, x', y') ==> Pixel(l, r, x', y') == Pixel(l, s, x', y')
    {
      MovedPixel(l, s, t, xs, ys, dx, dy, x, y, col, x', y');
    }
  }

  /** What one move means for any one cell. */
  lemma MovedPixel(l: Layout, s: Bytes, t: Bytes, xs: int, ys: int, dx: int, dy: int, x: int, y: int, col: bv32,
                   x': int, y': int)
    requires l.Valid() && Needed(l) <= |s|
    requires dx == (if xs < 0 then 1 else -1) && dy == (if ys < 0 then 1 else -1)
    requires Reached(l, s, t, xs, ys, dx, dy, x, y) && Moves(l, xs, ys, x, y)
    requires Has(l, |s|, x, y) && Has(l, |s|, x - xs, y - ys) && Has(l, |s|, x', y')
    requires Stored(l.format, col) == Pixel(l, t, x - xs, y - ys)
    ensures |Plot(l, t, x, y, col)| == |s|
    ensures Done(l, xs, ys, dx, dy, x + dx, y, x', y') ==>
              Has(l, |s|, x' - xs, y' - ys) &&
              Pixel(l, Plot(l, t, x, y, col), x', y') == Pixel(l, s, x' - xs, y' - ys)
    ensures !Done(l, xs, ys, dx, dy, x + dx, y, x', y') ==>
              Pixel(l, Plot(l, t, x, y, col), x', y') == Pixel(l, s, x', y')
  {
    hide Stored, Needed, Done, Has, Pixel, Plot;
    PlotKeepsLength(l, t, x, y, col);
    SourceIsStillOld(l, s, t, xs, ys, dx, dy, x, y);
    PlotPixel(l, t, x, y, col, x', y');
    OneMoreDone(l, xs, ys, dx, dy, x, y, x', y');
  }

  lemma PlotKeepsLength(l: Layout, s: Bytes, x: int, y: int, col: bv32)
    requires Has(l, |s|, x, y)
    ensures |Plot(l, s, x, y, col)| == |s|
  {
  }

  lemma OneMoreDone(l: Layout, xs: int, ys: int, dx: int, dy: int, x: int, y: int, x': int, y': int)
    requires (dx == 1 || dx == -1) && (dy == 1 || dy == -1) && Moves(l, xs, ys, x, y)
    ensures Done(l, xs, ys, dx, dy, x + dx, y, x', y') <==>
            Done(l, xs, ys, dx, dy, x, y, x', y') || (x' == x && y' == y)
  {
  }

  /** The start, the end and the direction of one loop over a coordinate below `size`. */
  predicate Sweep(size: int, step: int, start: int, end: int, d: int) {
    if step < 0 then d == 1 && start == 0 && end == size + step && 0 < end
    else d == -1 && start == size - 1 && end == step - 1 && end < start
  }

  lemma NothingMoves(l: Layout, s: Bytes, xs: int, ys: int)
    requires l.width + xs <= 0 || xs >= l.width || l.height + ys <= 0 || ys >= l.height
    ensures Scrolled(l, s, s, xs, ys)
  {
  }

  lemma SweepStarts(l: Layout, s: Bytes, xs: int, ys: int, sx: int, xend: int, dx: int, y: int, yend: int, dy: int)
    requires Sweep(l.width, xs, sx, xend, dx) && Sweep(l.height, ys, y, yend, dy)
    ensures Reached(l, s, s, xs, ys, dx, dy, sx, y)
  {
  }

  lemma RowIsDone(l: Layout, s: Bytes, t: Bytes, xs: int, ys: int, sx: int, xend: int, dx: int, y: int, dy: int)
    requires Sweep(l.width, xs, sx, xend, dx) && (dy == 1 || dy == -1)
    requires Reached(l, s, t, xs, ys, dx, dy, xend, y)
    ensures Reached(l, s, t, xs, ys, dx, dy, sx, y + dy)
  {
    assert forall x', y' :: Done(l, xs, ys, dx, dy, sx, y + dy, x', y') <==> Done(l, xs, ys, dx, dy, xend, y, x', y');
  }

  lemma SweepEnds(l: Layout, s: Bytes, t: Bytes, xs: int, ys: int, sx: int, xend: int, dx: int, y: int, yend: int,
                  dy: int)
    requires Sweep(l.width, xs, sx, xend, dx) && Sweep(l.height, ys, y, yend, dy)
    requires Reached(l, s, t, xs, ys, dx, dy, sx, yend)
    ensures Scrolled(l, s, t, xs, ys)
  {
    assert forall x', y' :: Moves(l, xs, ys, x', y') ==> Done(l, xs, ys, dx, dy, sx, yend, x', y');
  }

  /** The first `n` pixels of a row, in the order of the copies. */
  function RowPoints(sx: int, dx: int, y: int, n: nat): Points {
    if n == 0 then [] else RowPoints(sx, dx, y, n - 1) + [(sx + dx * (n - 1), y)]
  }

  /** The pixels of the first `m` rows. */
  function RowsPoints(sx: int, dx: int, n: nat, sy: int, dy: int, m: nat): Points {
    if m == 0 then [] else RowsPoints(sx, dx, n, sy, dy, m - 1) + RowPoints(sx, dx, sy + dy * (m - 1), n)
  }

  /** All the pixels that a scroll writes, in order. */
  function ScrollPoints(l: Layout, xs: int, ys: int): Points {
    if Abs(xs) >= l.width || Abs(ys) >= l.height then []
    else
      RowsPoints(if xs < 0 then 0 else l.width - 1, if xs < 0 then 1 else -1, l.width - Abs(xs),
                 if ys < 0 then 0 else l.height - 1, if ys < 0 then 1 else -1, l.height - Abs(ys))
  }

  lemma {:induction false} RowPointsAt(sx: int, dx: int, y: int, n: nat, j: nat)
    requires j < n
    ensures |RowPoints(sx, dx, y, n)| == n && RowPoints(sx, dx, y, n)[j] == (sx + dx * j, y)
    decreases n
  {
    if n > 1 {
      RowPointsAt(sx, dx, y, n - 1, if j < n - 1 then j else 0);
    }
  }

  lemma {:induction false} RowsPointsAt(sx: int, dx: int, n: nat, sy: int, dy: int, m: nat, i: nat, j: nat)
    requires i < m && j < n
    ensures 0 <= i * n + j < m * n && |RowsPoints(sx, dx, n, sy, dy, m)| == m * n
    ensures RowsPoints(sx, dx, n, sy, dy, m)[i * n + j] == (sx + dx * j, sy + dy * i)
    decreases m
  {
    hide RowPoints;
    PlaceInRows(n, m, i, j);
    RowPointsAt(sx, dx, sy + dy * (m - 1), n, j);
    if m > 1 {
      RowsPointsAt(sx, dx, n, sy, dy, m - 1, if i < m - 1 then i else 0, j);
    }
  }

  lemma PlaceInRows(n: nat, m: nat, i: nat, j: nat)
    requires i < m && j < n
    ensures 0 <= i * n + j < m * n && m * n == (m - 1) * n + n
    ensures i < m - 1 ==> i * n + j < (m - 1) * n
  {
    RowFits(n, m, i);
    if i < m - 1 {
      RowFits(n, m - 1, i);
    }
  }

  lemma RowFits(n: nat, m: nat, i: nat)
    requires i < m
    ensures 0 <= i * n && i * n + n <= m * n
  {
    AtLeastOne(m - i, n);
    assert m * n == i * n + (m - i) * n;
  }

  /** The pixels that move are written once each, row by row and along each row from the edge that the picture moves
      towards. */
  lemma ScrollOrder(l: Layout, xs: int, ys: int, x: int, y: int)
    requires Moves(l, xs, ys, x, y)
    ensures var ps, n := ScrollPoints(l, xs, ys), l.width - Abs(xs);
            var i, j := if ys < 0 then y else l.height - 1 - y, if xs < 0 then x else l.width - 1 - x;
            && |ps| == (l.height - Abs(ys)) * n && 0 <= i * n + j < |ps| && ps[i * n + j] == (x, y)
  {
    hide RowsPoints;
    var i, j := if ys < 0 then y else l.height - 1 - y, if xs < 0 then x else l.width - 1 - x;
    RowsPointsAt(if xs < 0 then 0 else l.width - 1, if xs < 0 then 1 else -1, l.width - Abs(xs),
                 if ys < 0 then 0 else l.height - 1, if ys < 0 then 1 else -1, l.height - Abs(ys), i, j);
  }

  /** The inner loop: one row, from `sx` to before `xend`. */
  method ScrollRow(fb: FrameBuffer, xs: int, ys: int, sx: int, xend: int, dx: int, y: int, ghost dy: int,
                   ghost s: Bytes)
    requires fb.Valid() && Sweep(fb.layout.width, xs, sx, xend, dx)
    requires dy == (if ys < 0 then 1 else -1) && 0 <= y < fb.layout.height && 0 <= y - ys < fb.layout.height
    requires Reached(fb.layout, s, fb.buf[..], xs, ys, dx, dy, sx, y)
    modifies fb`changedCount, fb`changedCleared, fb.buf, fb.changedIndexes
    ensures fb.Valid()
    ensures Reached(fb.layout, s, fb.buf[..], xs, ys, dx, dy, sx, y + dy)
    ensures fb.Logged() ==
            Noted(fb.layout, fb.buf.Length, old(fb.Logged()), RowPoints(sx, dx, y, fb.layout.width - Abs(xs)))
  {
    hide Reached, Stored, Needed, Pixel, Plot, Noted, LogPixel, Layout.Index;
    NotedNothing(fb.layout, fb.buf.Length, fb.Logged());
    ghost var k := 0;
    var x := sx;
    ReachedKeepsLength(fb.layout, s, fb.buf[..], xs, ys, dx, dy, x, y);
    while x != xend
      invariant fb.Valid() && (if dx == 1 then 0 <= x <= xend else xend <= x <= sx)
      invariant |s| == fb.buf.Length && x == sx + dx * k && 0 <= k <= fb.layout.width - Abs(xs)
      invariant fb.Logged() == Noted(fb.layout, fb.buf.Length, old(fb.Logged()), RowPoints(sx, dx, y, k))
      invariant Reached(fb.layout, s, fb.buf[..], xs, ys, dx, dy, x, y)
      decreases if dx == 1 then xend - x else x - xend
    {
      ghost var t := fb.buf[..];
      var col := fb.GetPixel(x - xs, y - ys);
      SourceIsStillOld(fb.layout, s, t, xs, ys, dx, dy, x, y);
      var r := fb.SetPixel(x, y, col);
      OneMove(fb.layout, s, t, xs, ys, dx, dy, x, y, col);
      NotedOneMore(fb.layout, fb.buf.Length, old(fb.Logged()), RowPoints(sx, dx, y, k), (x, y));
      x := x + dx;
      k := k + 1;
    }
    RowIsDone(fb.layout, s, fb.buf[..], xs, ys, sx, xend, dx, y, dy);
  }

  lemma ReachedKeepsLength(l: Layout, s: Bytes, t: Bytes, xs: int, ys: int, dx: int, dy: int, x: int, y: int)
    requires Reached(l, s, t, xs, ys, dx, dy, x, y)
    ensures |s| == |t|
  {
  }

  /** `framebuf_scroll`. */
  method ScrollBy(fb: FrameBuffer, xs: int, ys: int)
    requires fb.Valid()
    modifies fb`changedCount, fb`changedCleared, fb.buf, fb.changedIndexes
    ensures fb.Valid()
    ensures Scrolled(fb.layout, old(fb.buf[..]), fb.buf[..], xs, ys)
    ensures fb.Logged() == Noted(fb.layout, fb.buf.Length, old(fb.Logged()), ScrollPoints(fb.layout, xs, ys))
  {
    hide Reached, Scrolled, Needed, Noted;
    NotedNothing(fb.layout, fb.buf.Length, fb.Logged());
    var l := fb.layout;
    if l.width + xs <= 0 || xs >= l.width || l.height + ys <= 0 || ys >= l.height {
      NothingMoves(l, fb.buf[..], xs, ys);
    }
    var sx, y, xend, yend, dx, dy;
    if xs < 0 {
      sx, xend := 0, l.width + xs;
      if xend <= 0 { return; }
      dx := 1;
    } else {
      sx, xend := l.width - 1, xs - 1;
      if xend >= sx { return; }
      dx := -1;
    }
    if ys < 0 {
      y, yend := 0, l.height + ys;
      if yend <= 0 { return; }
      dy := 1;
    } else {
      y, yend := l.height - 1, ys - 1;
      if yend >= y { return; }
      dy := -1;
    }
    ghost var s, top, n, m := fb.buf[..], y, l.width - Abs(xs), 0;
    SweepStarts(l, s, xs, ys, sx, xend, dx, y, yend, dy);
    while y != yend
      invariant fb.Valid() && (if dy == 1 then 0 <= y <= yend else yend <= y <= l.height - 1)
      invariant Reached(l, s, fb.buf[..], xs, ys, dx, dy, sx, y)
      invariant y == top + dy * m && 0 <= m <= l.height - Abs(ys)
      invariant fb.Logged() == Noted(l, fb.buf.Length, old(fb.Logged()), RowsPoints(sx, dx, n, top, dy, m))
      decreases if dy == 1 then yend - y else y - yend
    {
      ScrollRow(fb, xs, ys, sx, xend, dx, y, dy, s);
      NotedInParts(l, fb.buf.Length, old(fb.Logged()), RowsPoints(sx, dx, n, top, dy, m), RowPoints(sx, dx, y, n));
      y := y + dy;
      m := m + 1;
    }
    SweepEnds(l, s, fb.buf[..], xs, ys, sx, xend, dx, top, yend, dy);
  }
}
