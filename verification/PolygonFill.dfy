/** The swap-and-step-back sort of the crossings. */
module NodeSort {
  import opened Crossings

  /** How far the sort has come: the first `hi + 1` nodes are in order, except that while the sort
      steps back the node after position `i` is still too far right. */
  ghost predicate Progress(s: seq<int>, i: int, hi: int, back: bool) {
    && 0 <= i <= hi < |s|
    && (forall p, q :: 0 <= p < q <= hi && !(back && (p == i + 1 || q == i + 1)) ==> s[p] <= s[q])
    && (back ==> i < hi && forall q :: i + 1 < q <= hi ==> s[i + 1] <= s[q])
  }

  lemma SwapKeepsMultiset(s: seq<int>, t: seq<int>, i: int)
    requires 0 <= i && i + 1 < |s| && t == s[i := s[i + 1]][i + 1 := s[i]]
    ensures multiset(t) == multiset(s)
  {
  }

  lemma SwapProgress(s: seq<int>, t: seq<int>, i: int, hi: int, back: bool)
    requires Progress(s, i, hi, back) && i + 1 < |s| && s[i] > s[i + 1]
    requires t == s[i := s[i + 1]][i + 1 := s[i]]
    ensures back || i == hi
    ensures var hi' := if back then hi else hi + 1;
            if i > 0 then Progress(t, i - 1, hi', true) else Progress(t, 0, hi', false)
  {
  }

  lemma StepProgress(s: seq<int>, i: int, hi: int, back: bool)
    requires Progress(s, i, hi, back) && i + 1 < |s| && s[i] <= s[i + 1]
    ensures Progress(s, i + 1, if i == hi then hi + 1 else hi, false)
  {
  }

  /** Sorts the first `n` entries in place. */
  method SortNodes(nodes: array<int>, n: int)
    requires 0 < n <= nodes.Length
    modifies nodes
    ensures Sorted(nodes[..n])
    ensures multiset(nodes[..n]) == multiset(old(nodes[..n]))
  {
    hide Progress, Sorted;
    var i := 0;
    ghost var hi, back, s := 0, false, nodes[..n];
    SortStarts(s);
    while i < n - 1
      invariant 0 <= i <= hi < n && s == nodes[..n] && Progress(s, i, hi, back)
      invariant back ==> i < hi
      invariant multiset(s) == multiset(old(nodes[..n]))
      decreases n - hi, if back then 1 else 0, if back then i else n - i
    {
      ghost var t := s;
      if nodes[i] > nodes[i + 1] {
        nodes[i], nodes[i + 1] := nodes[i + 1], nodes[i];
        s := nodes[..n];
        assert s == t[i := t[i + 1]][i + 1 := t[i]];
        SwapKeepsMultiset(t, s, i);
        SwapProgress(t, s, i, hi, back);
        hi := if back then hi else hi + 1;
        back := i > 0;
        if i > 0 {
          i := i - 1;
        }
      } else {
        StepProgress(t, i, hi, back);
        hi := if i == hi then hi + 1 else hi;
        back := false;
        i := i + 1;
      }
      ProgressBounds(s, i, hi, back);
    }
    SortEnds(s, i, hi, back);
  }

  lemma ProgressBounds(s: seq<int>, i: int, hi: int, back: bool)
    requires Progress(s, i, hi, back)
    ensures 0 <= i <= hi < |s| && (back ==> i < hi)
  {
  }

  lemma SortStarts(s: seq<int>)
    requires 0 < |s|
    ensures Progress(s, 0, 0, false)
  {
  }

  lemma SortEnds(s: seq<int>, i: int, hi: int, back: bool)
    requires Progress(s, i, hi, back) && |s| - 1 <= i
    ensures Sorted(s)
  {
  }
}

/** `framebuf_poly` with the fill flag. */
module PolygonFill {
  import opened Basics
  import opened PixelFormat
  import opened FrameBuffers
  import opened Painting
  import opened Line
  import opened Crossings
  import opened NodeSort

  /** The pixels that an edge adds by hand on the scan line of its lowest point. */
  predicate BottomCovers(p: Vertex, q: Vertex, row: int, x: int) {
    && row == (if p.1 > q.1 then p.1 else q.1)
    && if p.1 < q.1 then x == q.0
       else if q.1 < p.1 then x == p.0
       else p.0 <= x <= q.0 || q.0 <= x <= p.0
  }

  predicate BottomOf(vs: seq<Vertex>, row: int, j: int, x: int)
    requires 0 <= j < |vs|
  {
    BottomCovers(Corner(vs, j), Corner(vs, j + 1), row, x)
  }

  predicate AnyBottom(vs: seq<Vertex>, row: int, n: int, x: int) {
    exists j :: 0 <= j < n && j < |vs| && BottomOf(vs, row, j, x)
  }

  /** The filled polygon, in its own coordinates: the even-odd rule over the crossings of the scan line,
      and the lowest points of the edges. */
  predicate PolygonCovers(vs: seq<Vertex>, x: int, row: int)
    requires 0 < |vs|
  {
    Inside(Nodes(vs, row, |vs|), x) || AnyBottom(vs, row, |vs|, x)
  }

  /** The lowest points of an edge: its lower end, or all of it when it lies in the row. */
  lemma BottomIff(p: Vertex, q: Vertex, row: int, x: int)
    ensures BottomCovers(p, q, row, x) <==>
            && p.1 <= row && q.1 <= row
            && if p.1 != q.1 then (x, row) == p || (x, row) == q
               else p.1 == row && Min(p.0, q.0) <= x <= Max(p.0, q.0)
  {
  }

  /** Which pixels a polygon has, without the formula of the crossings. */
  lemma PolygonCoversIff(vs: seq<Vertex>, x: int, row: int)
    requires 0 < |vs|
    ensures PolygonCovers(vs, x, row) <==>
            || PlacedOn(vs, row, |vs|, x) || PlacedBelow(vs, row, |vs|, x) % 2 == 1
            || exists j :: 0 <= j < |vs| && BottomOf(vs, row, j, x)
  {
    hide Inside, Nodes, PlacedOn, PlacedBelow, BottomOf;
    InsideIff(vs, row, x);
  }

  lemma HorizontalLine(x1: int, y: int, x2: int, px: int, py: int)
    ensures OnLine(x1, y, x2, y, px, py) <==> py == y && (x1 <= px <= x2 || x2 <= px <= x1)
  {
    hide Rounded;
    var w := Setup(x1, y, x2, y);
    var i := w.sx * (px - w.x);
    if 0 < w.dx {
      RoundedBounds(w, i, 0);
    } else {
      WalkEnds(w);
    }
  }

  function BottomMark(vs: seq<Vertex>, ox: int, oy: int, row: int, n: int): Mark {
    (px, py) => py == oy + row && AnyBottom(vs, row, n, px - ox)
  }

  function EdgeMark(p: Vertex, q: Vertex, ox: int, oy: int, row: int): Mark {
    (px, py) => py == oy + row && BottomCovers(p, q, row, px - ox)
  }

  function SpanMark(s: seq<int>, ox: int, oy: int, row: int, n: int): Mark {
    (px, py) => py == oy + row && InSpans(s, n, px - ox)
  }

  function RowMark(vs: seq<Vertex>, ox: int, oy: int, row: int): Mark
    requires 0 < |vs|
  {
    (px, py) => py == oy + row && PolygonCovers(vs, px - ox, row)
  }

  function PolygonMark(vs: seq<Vertex>, ox: int, oy: int): Mark
    requires 0 < |vs|
  {
    (px, py) => PolygonCovers(vs, px - ox, py - oy)
  }

  /** The pixel writes of an edge on the scan line of its lowest point, in order. */
  function EdgePoints(p: Vertex, q: Vertex, ox: int, oy: int, row: int): Points {
    if row != (if p.1 > q.1 then p.1 else q.1) then []
    else if p.1 < q.1 then [(ox + q.0, oy + q.1)]
    else if q.1 < p.1 then [(ox + p.0, oy + p.1)]
    else LinePoints(ox + p.0, oy + p.1, ox + q.0, oy + q.1)
  }

  /** The pixel writes of the first `j` edges on one scan line. */
  function EdgesPoints(vs: seq<Vertex>, ox: int, oy: int, row: int, j: int): Points
    requires 0 <= j <= |vs| && 0 < |vs|
    decreases j
  {
    if j == 0 then []
    else EdgesPoints(vs, ox, oy, row, j - 1) + EdgePoints(Corner(vs, j - 1), Corner(vs, j), ox, oy, row)
  }

  /** The pixel writes of `n` scan lines from `first` on; the spans between crossings are no pixel writes. */
  function RowsPoints(vs: seq<Vertex>, ox: int, oy: int, first: int, n: int): Points
    requires 0 < |vs|
  {
    if n <= 0 then [] else RowsPoints(vs, ox, oy, first, n - 1) + EdgesPoints(vs, ox, oy, first + n - 1, |vs|)
  }

  lemma CrossingWritesNothing(p: Vertex, q: Vertex, ox: int, oy: int, row: int)
    requires Crosses(p, q, row)
    ensures EdgePoints(p, q, ox, oy, row) == []
  {
  }

  /** The part of the loop body that handles an edge which does not cross. */
  method PaintBottom(fb: FrameBuffer, ox: int, oy: int, p: Vertex, q: Vertex, row: int, col: bv32)
    requires fb.Valid()
    modifies fb`changedCount, fb`changedCleared, fb.buf, fb.changedIndexes
    ensures fb.Valid()
    ensures Painted(fb.layout, old(fb.buf[..]), fb.buf[..], Stored(fb.layout.format, col), EdgeMark(p, q, ox, oy, row))
    ensures fb.Logged() == Noted(fb.layout, fb.buf.Length, old(fb.Logged()), EdgePoints(p, q, ox, oy, row))
  {
    hide Painted, Stored, Needed, OnLine, Noted, LinePoints;
    NotedNothing(fb.layout, fb.buf.Length, fb.Logged());
    ghost var l, v, s := fb.layout, Stored(fb.layout.format, col), fb.buf[..];
    ghost var mark := EdgeMark(p, q, ox, oy, row);
    assert forall px, py :: mark(px, py) == (py == oy + row && BottomCovers(p, q, row, px - ox));
    if row == (if p.1 > q.1 then p.1 else q.1) {
      if p.1 < q.1 {
        SetChecked(fb, ox + q.0, oy + q.1, col, true);
        RepaintAs(l, s, fb.buf[..], v, (px, py) => true && px == ox + q.0 && py == oy + q.1, mark);
      } else if q.1 < p.1 {
        SetChecked(fb, ox + p.0, oy + p.1, col, true);
        RepaintAs(l, s, fb.buf[..], v, (px, py) => true && px == ox + p.0 && py == oy + p.1, mark);
      } else {
        DrawLine(fb, ox + p.0, oy + p.1, ox + q.0, oy + q.1, col);
        forall px, py | l.InFrame(px, py)
          ensures LineMark(ox + p.0, oy + p.1, ox + q.0, oy + q.1)(px, py) == mark(px, py)
        {
          HorizontalLine(ox + p.0, oy + p.1, ox + q.0, px, py);
        }
        RepaintAs(l, s, fb.buf[..], v, LineMark(ox + p.0, oy + p.1, ox + q.0, oy + q.1), mark);
      }
    } else {
      NothingPainted(l, s, v, mark);
    }
  }

  lemma OneMoreBottom(vs: seq<Vertex>, row: int, j: int, x: int)
    requires 0 <= j < |vs|
    ensures AnyBottom(vs, row, j + 1, x) <==> AnyBottom(vs, row, j, x) || BottomOf(vs, row, j, x)
  {
    hide BottomOf;
    if AnyBottom(vs, row, j + 1, x) {
      var i :| 0 <= i < j + 1 && i < |vs| && BottomOf(vs, row, i, x);
    }
    if AnyBottom(vs, row, j, x) {
      var i :| 0 <= i < j && i < |vs| && BottomOf(vs, row, i, x);
      assert i < j + 1;
    }
  }

  lemma BottomsGrow(l: Layout, s: Bytes, m: Bytes, t: Bytes, v: bv8, vs: seq<Vertex>, ox: int, oy: int, row: int,
                    j: int)
    requires 0 <= j < |vs|
    requires Painted(l, s, m, v, BottomMark(vs, ox, oy, row, j))
    requires Painted(l, m, t, v, EdgeMark(Corner(vs, j), Corner(vs, j + 1), ox, oy, row))
    ensures Painted(l, s, t, v, BottomMark(vs, ox, oy, row, j + 1))
  {
    hide Painted, AnyBottom, BottomCovers;
    var f, g := BottomMark(vs, ox, oy, row, j), EdgeMark(Corner(vs, j), Corner(vs, j + 1), ox, oy, row);
    var h := BottomMark(vs, ox, oy, row, j + 1);
    forall px, py | l.InFrame(px, py)
      ensures h(px, py) == (f(px, py) || g(px, py))
    {
      OneMoreBottom(vs, row, j, px - ox);
    }
    PaintBoth(l, s, m, t, v, f, g, h);
  }

  /** The walk around the edges on one scan line: collects the crossings and paints the lowest points. */
  method WalkEdges(fb: FrameBuffer, ox: int, oy: int, vs: seq<Vertex>, row: int, col: bv32, nodes: array<int>)
    returns (nNodes: int)
    requires fb.Valid() && 0 < |vs| == nodes.Length
    requires nodes as object != fb.buf && nodes as object != fb.changedIndexes
    modifies fb`changedCount, fb`changedCleared, fb.buf, fb.changedIndexes, nodes
    ensures fb.Valid()
    ensures 0 <= nNodes <= |vs| && nodes[..nNodes] == Nodes(vs, row, |vs|)
    ensures Painted(fb.layout, old(fb.buf[..]), fb.buf[..], Stored(fb.layout.format, col),
                    BottomMark(vs, ox, oy, row, |vs|))
    ensures fb.Logged() == Noted(fb.layout, fb.buf.Length, old(fb.Logged()), EdgesPoints(vs, ox, oy, row, |vs|))
  {
    hide Painted, Stored, Needed, Node, BottomCovers, Noted, EdgePoints;
    NotedNothing(fb.layout, fb.buf.Length, fb.Logged());
    ghost var l, v := fb.layout, Stored(fb.layout.format, col);
    nNodes := 0;
    var p := vs[0];
    NoBottomsYet(l, fb.buf[..], v, vs, ox, oy, row);
    for i := |vs| downto 0
      invariant fb.Valid() && p == Corner(vs, |vs| - i)
      invariant 0 <= nNodes <= |vs| - i && nodes[..nNodes] == Nodes(vs, row, |vs| - i)
      invariant Painted(l, old(fb.buf[..]), fb.buf[..], v, BottomMark(vs, ox, oy, row, |vs| - i))
      invariant fb.Logged() == Noted(l, fb.buf.Length, old(fb.Logged()), EdgesPoints(vs, ox, oy, row, |vs| - i))
    {
      ghost var m, j := fb.buf[..], |vs| - i - 1;
      var q := vs[i];
      NotedInParts(l, fb.buf.Length, old(fb.Logged()), EdgesPoints(vs, ox, oy, row, j), EdgePoints(p, q, ox, oy, row));
      if Crosses(p, q, row) {
        nodes[nNodes] := Node(p, q, row);
        nNodes := nNodes + 1;
        NoBottom(l, m, v, p, q, ox, oy, row);
        CrossingWritesNothing(p, q, ox, oy, row);
        NotedNothing(l, fb.buf.Length, fb.Logged());
      } else {
        PaintBottom(fb, ox, oy, p, q, row, col);
      }
      BottomsGrow(l, old(fb.buf[..]), m, fb.buf[..], v, vs, ox, oy, row, j);
      p := q;
    }
  }

  lemma NoBottom(l: Layout, s: Bytes, v: bv8, p: Vertex, q: Vertex, ox: int, oy: int, row: int)
    requires Crosses(p, q, row)
    ensures Painted(l, s, s, v, EdgeMark(p, q, ox, oy, row))
  {
    hide Painted;
    var mark := EdgeMark(p, q, ox, oy, row);
    assert forall px, py :: mark(px, py) ==> BottomCovers(p, q, row, px - ox);
    NothingPainted(l, s, v, mark);
  }

  lemma NoBottomsYet(l: Layout, s: Bytes, v: bv8, vs: seq<Vertex>, ox: int, oy: int, row: int)
    ensures Painted(l, s, s, v, BottomMark(vs, ox, oy, row, 0))
  {
    hide Painted;
    var mark := BottomMark(vs, ox, oy, row, 0);
    assert forall px, py :: mark(px, py) ==> AnyBottom(vs, row, 0, px - ox);
    NothingPainted(l, s, v, mark);
  }

  lemma OneMoreSpan(s: seq<int>, n: int, x: int)
    requires 0 <= n && n + 1 < |s| && n % 2 == 0
    ensures InSpans(s, n + 2, x) <==> InSpans(s, n, x) || s[n] <= x <= s[n + 1]
  {
    if InSpans(s, n, x) {
      var k :| 0 <= k < n && k < |s| - 1 && k % 2 == 0 && InPair(s, k, x);
      assert k < n + 2;
    }
    if s[n] <= x <= s[n + 1] {
      assert InPair(s, n, x);
    }
  }

  lemma SpansGrow(l: Layout, s: Bytes, m: Bytes, t: Bytes, v: bv8, ns: seq<int>, ox: int, oy: int, row: int, n: int)
    requires 0 <= n && n + 1 < |ns| && n % 2 == 0
    requires Painted(l, s, m, v, SpanMark(ns, ox, oy, row, n))
    requires Painted(l, m, t, v, Box(ox + ns[n], oy + row, ns[n + 1] - ns[n] + 1, 1))
    ensures Painted(l, s, t, v, SpanMark(ns, ox, oy, row, n + 2))
  {
    hide Painted, InSpans;
    var f, g := SpanMark(ns, ox, oy, row, n), Box(ox + ns[n], oy + row, ns[n + 1] - ns[n] + 1, 1);
    var h := SpanMark(ns, ox, oy, row, n + 2);
    forall px, py | l.InFrame(px, py)
      ensures h(px, py) == (f(px, py) || g(px, py))
    {
      OneMoreSpan(ns, n, px - ox);
    }
    PaintBoth(l, s, m, t, v, f, g, h);
  }

  /** Fills between each pair of sorted crossings; every span it passes on is wide at least one. */
  method FillSpans(fb: FrameBuffer, ox: int, oy: int, row: int, col: bv32, nodes: array<int>, n: int)
    requires fb.Valid() && 0 <= n <= nodes.Length && n % 2 == 0 && Sorted(nodes[..n])
    requires nodes as object != fb.buf
    modifies fb.buf
    ensures fb.Valid()
    ensures Painted(fb.layout, old(fb.buf[..]), fb.buf[..], Stored(fb.layout.format, col),
                    SpanMark(nodes[..n], ox, oy, row, n))
    ensures fb.Logged() == old(fb.Logged())
  {
    hide Painted, Stored, Needed, InSpans;
    ghost var l, v, ns := fb.layout, Stored(fb.layout.format, col), nodes[..n];
    NoSpans(l, fb.buf[..], v, ns, ox, oy, row);
    var i := 0;
    while i < n
      invariant fb.Valid() && 0 <= i <= n && i % 2 == 0 && nodes[..n] == ns && fb.Logged() == old(fb.Logged())
      invariant Painted(l, old(fb.buf[..]), fb.buf[..], v, SpanMark(ns, ox, oy, row, i))
    {
      ghost var m := fb.buf[..];
      assert ns[i] <= ns[i + 1];
      PaintBox(fb, ox + nodes[i], oy + row, nodes[i + 1] - nodes[i] + 1, 1, col);
      SpansGrow(l, old(fb.buf[..]), m, fb.buf[..], v, ns, ox, oy, row, i);
      i := i + 2;
    }
  }

  lemma NoSpans(l: Layout, s: Bytes, v: bv8, ns: seq<int>, ox: int, oy: int, row: int)
    ensures Painted(l, s, s, v, SpanMark(ns, ox, oy, row, 0))
  {
    hide Painted;
    var mark := SpanMark(ns, ox, oy, row, 0);
    assert forall px, py :: mark(px, py) ==> InSpans(ns, 0, px - ox);
    NothingPainted(l, s, v, mark);
  }

  /** The spans of the sorted crossings together with the lowest points are the polygon's row. */
  lemma RowIsComplete(l: Layout, s: Bytes, m: Bytes, t: Bytes, v: bv8, vs: seq<Vertex>, ox: int, oy: int, row: int,
                      ns: seq<int>)
    requires 0 < |vs| && Sorted(ns) && multiset(ns) == multiset(Nodes(vs, row, |vs|)) && |ns| % 2 == 0
    requires Painted(l, s, m, v, BottomMark(vs, ox, oy, row, |vs|))
    requires Painted(l, m, t, v, SpanMark(ns, ox, oy, row, |ns|))
    ensures Painted(l, s, t, v, RowMark(vs, ox, oy, row))
  {
    hide Painted, AnyBottom, InSpans, Inside, Nodes, Sorted;
    var f, g, h := BottomMark(vs, ox, oy, row, |vs|), SpanMark(ns, ox, oy, row, |ns|), RowMark(vs, ox, oy, row);
    forall px, py | l.InFrame(px, py)
      ensures h(px, py) == (f(px, py) || g(px, py))
    {
      assert h(px, py) == (py == oy + row && PolygonCovers(vs, px - ox, row));
      assert f(px, py) == (py == oy + row && AnyBottom(vs, row, |vs|, px - ox));
      assert g(px, py) == (py == oy + row && InSpans(ns, |ns|, px - ox));
      PairsAreEvenOdd(ns, px - ox);
      InsideOfPermutation(ns, Nodes(vs, row, |vs|), px - ox);
    }
    PaintBoth(l, s, m, t, v, f, g, h);
  }

  lemma EmptyRowIsComplete(l: Layout, s: Bytes, t: Bytes, v: bv8, vs: seq<Vertex>, ox: int, oy: int, row: int)
    requires 0 < |vs| && Nodes(vs, row, |vs|) == []
    requires Painted(l, s, t, v, BottomMark(vs, ox, oy, row, |vs|))
    ensures Painted(l, s, t, v, RowMark(vs, ox, oy, row))
  {
    hide Painted, AnyBottom, Nodes;
    var f, h := BottomMark(vs, ox, oy, row, |vs|), RowMark(vs, ox, oy, row);
    forall px, py | l.InFrame(px, py)
      ensures f(px, py) == h(px, py)
    {
      assert h(px, py) == (py == oy + row && PolygonCovers(vs, px - ox, row));
      assert f(px, py) == (py == oy + row && AnyBottom(vs, row, |vs|, px - ox));
    }
    RepaintAs(l, s, t, v, f, h);
  }

  /** One scan line. */
  method FillRow(fb: FrameBuffer, ox: int, oy: int, vs: seq<Vertex>, row: int, col: bv32)
    requires fb.Valid() && 0 < |vs|
    modifies fb`changedCount, fb`changedCleared, fb.buf, fb.changedIndexes
    ensures fb.Valid()
    ensures Painted(fb.layout, old(fb.buf[..]), fb.buf[..], Stored(fb.layout.format, col), RowMark(vs, ox, oy, row))
    ensures fb.Logged() == Noted(fb.layout, fb.buf.Length, old(fb.Logged()), EdgesPoints(vs, ox, oy, row, |vs|))
  {
    hide Painted, Stored, Needed, Nodes, Sorted, Noted, EdgesPoints;
    ghost var l, v := fb.layout, Stored(fb.layout.format, col);
    var nodes := new int[|vs|];
    var nNodes := WalkEdges(fb, ox, oy, vs, row, col, nodes);
    ghost var m := fb.buf[..];
    CrossingsAreEven(vs, row);
    if nNodes == 0 {
      EmptyRowIsComplete(l, old(fb.buf[..]), fb.buf[..], v, vs, ox, oy, row);
      return;
    }
    SortNodes(nodes, nNodes);
    FillSpans(fb, ox, oy, row, col, nodes, nNodes);
    RowIsComplete(l, old(fb.buf[..]), m, fb.buf[..], v, vs, ox, oy, row, nodes[..nNodes]);
  }

  function RowsMark(vs: seq<Vertex>, ox: int, oy: int, first: int, next: int): Mark
    requires 0 < |vs|
  {
    (px, py) => first <= py - oy < next && PolygonCovers(vs, px - ox, py - oy)
  }

  lemma RowsGrow(l: Layout, s: Bytes, m: Bytes, t: Bytes, v: bv8, vs: seq<Vertex>, ox: int, oy: int, first: int,
                 row: int)
    requires 0 < |vs| && first <= row
    requires Painted(l, s, m, v, RowsMark(vs, ox, oy, first, row))
    requires Painted(l, m, t, v, RowMark(vs, ox, oy, row))
    ensures Painted(l, s, t, v, RowsMark(vs, ox, oy, first, row + 1))
  {
    hide Painted, PolygonCovers;
    var f, g, h := RowsMark(vs, ox, oy, first, row), RowMark(vs, ox, oy, row), RowsMark(vs, ox, oy, first, row + 1);
    assert forall px, py :: h(px, py) == (f(px, py) || g(px, py));
    PaintBoth(l, s, m, t, v, f, g, h);
  }

  lemma NoRowsYet(l: Layout, s: Bytes, v: bv8, vs: seq<Vertex>, ox: int, oy: int, first: int)
    requires 0 < |vs|
    ensures Painted(l, s, s, v, RowsMark(vs, ox, oy, first, first))
  {
    hide Painted, PolygonCovers;
    var mark := RowsMark(vs, ox, oy, first, first);
    assert forall px, py :: !mark(px, py);
    NothingPainted(l, s, v, mark);
  }

  ghost predicate Spans(vs: seq<Vertex>, n: int, yMin: int, yMax: int) {
    forall i :: 0 <= i < n && i < |vs| ==> yMin <= vs[i].1 <= yMax
  }

  lemma {:induction false} NoNodesOutside(vs: seq<Vertex>, yMin: int, yMax: int, row: int, j: int)
    requires 0 < |vs| && Spans(vs, |vs|, yMin, yMax) && (row < yMin || yMax < row) && 0 <= j <= |vs|
    ensures Nodes(vs, row, j) == []
  {
    if j > 0 {
      NoNodesOutside(vs, yMin, yMax, row, j - 1);
    }
  }

  /** Nothing is drawn above or below the vertices, so the restriction to their rows loses nothing. */
  lemma NothingOutside(vs: seq<Vertex>, yMin: int, yMax: int, x: int, row: int)
    requires 0 < |vs| && Spans(vs, |vs|, yMin, yMax) && (row < yMin || yMax < row)
    ensures !PolygonCovers(vs, x, row)
  {
    hide Nodes;
    NoNodesOutside(vs, yMin, yMax, row, |vs|);
  }

  lemma PolygonIsComplete(l: Layout, s: Bytes, t: Bytes, v: bv8, vs: seq<Vertex>, ox: int, oy: int, yMin: int,
                          yMax: int)
    requires 0 < |vs| && Spans(vs, |vs|, yMin, yMax)
    requires Painted(l, s, t, v, RowsMark(vs, ox, oy, yMin, yMax + 1))
    ensures Painted(l, s, t, v, PolygonMark(vs, ox, oy))
  {
    hide Painted, PolygonCovers, Spans;
    var f, g := RowsMark(vs, ox, oy, yMin, yMax + 1), PolygonMark(vs, ox, oy);
    forall px, py | l.InFrame(px, py)
      ensures f(px, py) == g(px, py)
    {
      if py - oy < yMin || yMax < py - oy {
        NothingOutside(vs, yMin, yMax, px - ox, py - oy);
      }
    }
    RepaintAs(l, s, t, v, f, g);
  }

  const INT_MAX := 0x7fff_ffff
  const INT_MIN := -0x8000_0000

  function Top(vs: seq<Vertex>, n: nat): int
    requires 0 < n <= |vs|
  {
    if n == 1 then vs[0].1 else Min(Top(vs, n - 1), vs[n - 1].1)
  }

  function Bottom(vs: seq<Vertex>, n: nat): int
    requires 0 < n <= |vs|
  {
    if n == 1 then vs[0].1 else Max(Bottom(vs, n - 1), vs[n - 1].1)
  }

  /** All the pixel writes of a polygon, in order. */
  function PolygonPoints(vs: seq<Vertex>, ox: int, oy: int): Points {
    if vs == [] then []
    else RowsPoints(vs, ox, oy, Top(vs, |vs|), Bottom(vs, |vs|) + 1 - Top(vs, |vs|))
  }

  /** The rows between the highest and the lowest vertex. */
  method RowRange(vs: seq<Vertex>) returns (yMin: int, yMax: int)
    requires 0 < |vs| && Spans(vs, |vs|, INT_MIN, INT_MAX)
    ensures Spans(vs, |vs|, yMin, yMax) && yMin == Top(vs, |vs|) && yMax == Bottom(vs, |vs|) && yMin <= yMax
  {
    yMin, yMax := INT_MAX, INT_MIN;
    for i := 0 to |vs|
      invariant i == 0 ==> yMin == INT_MAX && yMax == INT_MIN
      invariant Spans(vs, i, yMin, yMax) && (i > 0 ==> yMin == Top(vs, i) && yMax == Bottom(vs, i) && yMin <= yMax)
    {
      var py := vs[i].1;
      yMin, yMax := Min(yMin, py), Max(yMax, py);
    }
  }

  /** The filled polygon at offset (ox, oy): exactly the even-odd rule and the lowest points, clipped. */
  method FillPolygon(fb: FrameBuffer, ox: int, oy: int, vs: seq<Vertex>, col: bv32)
    requires fb.Valid() && Spans(vs, |vs|, INT_MIN, INT_MAX)
    modifies fb`changedCount, fb`changedCleared, fb.buf, fb.changedIndexes
    ensures fb.Valid()
    ensures vs == [] ==> fb.buf[..] == old(fb.buf[..])
    ensures vs != [] ==>
              Painted(fb.layout, old(fb.buf[..]), fb.buf[..], Stored(fb.layout.format, col), PolygonMark(vs, ox, oy))
    ensures fb.Logged() == Noted(fb.layout, fb.buf.Length, old(fb.Logged()), PolygonPoints(vs, ox, oy))
  {
    hide Painted, Stored, Needed, PolygonCovers, Spans, Noted, EdgesPoints, Top, Bottom;
    NotedNothing(fb.layout, fb.buf.Length, fb.Logged());
    if |vs| == 0 {
      return;
    }
    ghost var l, v := fb.layout, Stored(fb.layout.format, col);
    var yMin, yMax := RowRange(vs);
    NoRowsYet(l, fb.buf[..], v, vs, ox, oy, yMin);
    for row := yMin to yMax + 1
      invariant fb.Valid()
      invariant Painted(l, old(fb.buf[..]), fb.buf[..], v, RowsMark(vs, ox, oy, yMin, row))
      invariant fb.Logged() == Noted(l, fb.buf.Length, old(fb.Logged()), RowsPoints(vs, ox, oy, yMin, row - yMin))
    {
      ghost var m := fb.buf[..];
      FillRow(fb, ox, oy, vs, row, col);
      RowsGrow(l, old(fb.buf[..]), m, fb.buf[..], v, vs, ox, oy, yMin, row);
      NotedInParts(l, fb.buf.Length, old(fb.Logged()),
                   RowsPoints(vs, ox, oy, yMin, row - yMin), EdgesPoints(vs, ox, oy, row, |vs|));
    }
    PolygonIsComplete(l, old(fb.buf[..]), fb.buf[..], v, vs, ox, oy, yMin, yMax);
  }

  /** The picture refines geometry: a pixel that is clear of the edges and not on a lowest point is painted exactly when
      it is inside the polygon itself. */
  lemma PolygonIsTrue(vs: seq<Vertex>, x: int, row: int)
    requires 0 < |vs| && Clear(vs, row, |vs|, x)
    ensures PolygonCovers(vs, x, row) <==>
            TrueBelow(vs, row, |vs|, x) % 2 == 1 || AnyBottom(vs, row, |vs|, x)
  {
    hide Inside, Nodes, AnyBottom, TrueBelow, Clear;
    InsideIsTrue(vs, row, x);
  }
}
