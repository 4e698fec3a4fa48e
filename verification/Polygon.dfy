/** The crossings of one scan line with a closed polygon, and the even-odd rule. */
module Crossings {

  type Vertex = (int, int)

  /** Division of the C language: towards zero. */
  function CDiv(a: int, b: int): int
    requires b != 0
  {
    if b > 0 then (if a >= 0 then a / b else -(-a / b))
    else (if a >= 0 then -(a / -b) else -a / -b)
  }

  /** The corners in the order in which the edges are walked: the first vertex, then from the last
      vertex back to the first. */
  function Corner(vs: seq<Vertex>, j: int): Vertex
    requires 0 <= j <= |vs| && 0 < |vs|
  {
    if j == 0 then vs[0] else vs[|vs| - j]
  }

  /** The edge from `p` to `q` crosses the scan line; its lower end does not count. */
  predicate Crosses(p: Vertex, q: Vertex, row: int) {
    p.1 != q.1 && ((p.1 > row && q.1 <= row) || (p.1 <= row && q.1 > row))
  }

  /** The column of the crossing, in 1/32 of a pixel and rounded. */
  function Node(p: Vertex, q: Vertex, row: int): int
    requires p.1 != q.1
  {
    CDiv(32 * p.0 + CDiv(32 * (q.0 - p.0) * (row - p.1), q.1 - p.1) + 16, 32)
  }

  /** The crossings of the first `j` edges, in the order found. */
  function Nodes(vs: seq<Vertex>, row: int, j: int): seq<int>
    requires 0 <= j <= |vs| && 0 < |vs|
    decreases j
  {
    if j == 0 then []
    else
      var p, q := Corner(vs, j - 1), Corner(vs, j);
      if Crosses(p, q, row) then Nodes(vs, row, j - 1) + [Node(p, q, row)] else Nodes(vs, row, j - 1)
  }

  /** The parity of the crossings says on which side of the scan line the walk stands. */
  lemma {:induction false} CrossingParity(vs: seq<Vertex>, row: int, j: int)
    requires 0 <= j <= |vs| && 0 < |vs|
    ensures |Nodes(vs, row, j)| <= j
    ensures |Nodes(vs, row, j)| % 2 == 1 <==> ((Corner(vs, 0).1 > row) != (Corner(vs, j).1 > row))
  {
    if j > 0 {
      CrossingParity(vs, row, j - 1);
    }
  }

  /** A closed polygon is crossed an even number of times. */
  lemma CrossingsAreEven(vs: seq<Vertex>, row: int)
    requires 0 < |vs|
    ensures |Nodes(vs, row, |vs|)| % 2 == 0 && |Nodes(vs, row, |vs|)| <= |vs|
  {
    CrossingParity(vs, row, |vs|);
  }

  // ---------- where a crossing is ----------

  function Height(p: Vertex, q: Vertex): int {
    if q.1 > p.1 then q.1 - p.1 else p.1 - q.1
  }

  /** How far column `x` lies to the right of the point where the line through `p` and `q` meets the row, times the
      height of the edge. */
  function Gap(p: Vertex, q: Vertex, row: int, x: int): int {
    var d := (x - p.0) * (q.1 - p.1) - (q.0 - p.0) * (row - p.1);
    if q.1 > p.1 then d else -d
  }

  /** Moving by one column is moving by the height of the edge. */
  lemma GapIsLinear(p: Vertex, q: Vertex, row: int, x: int, y: int)
    ensures Gap(p, q, row, y) == Gap(p, q, row, x) + (y - x) * Height(p, q)
  {
    assert (y - p.0) * (q.1 - p.1) == (x - p.0) * (q.1 - p.1) + (y - x) * (q.1 - p.1);
  }

  lemma CDivBounds(a: int, b: int)
    requires 0 < b
    ensures 0 <= a ==> 0 <= a - b * CDiv(a, b) < b
    ensures a < 0 ==> -b < a - b * CDiv(a, b) <= 0
  {
  }

  lemma CDivOfNegated(a: int, b: int)
    requires b != 0
    ensures CDiv(a, b) == CDiv(-a, -b)
  {
  }

  /** The first division: the offset of the crossing from the column of `p`, in 1/32 of a column. */
  function Offset(p: Vertex, q: Vertex, row: int): int
    requires p.1 != q.1
  {
    CDiv(32 * (q.0 - p.0) * (row - p.1), q.1 - p.1)
  }

  lemma GapAtEnd(p: Vertex, q: Vertex, row: int)
    ensures Gap(p, q, row, p.0) == if q.1 > p.1 then -((q.0 - p.0) * (row - p.1)) else (q.0 - p.0) * (row - p.1)
  {
    assert (p.0 - p.0) * (q.1 - p.1) == 0;
  }

  lemma CDivIsClose(n: int, h: int)
    requires h != 0
    ensures if h > 0 then -h < n - h * CDiv(n, h) < h else h < -n + h * CDiv(n, h) < -h
  {
    if h > 0 {
      CDivBounds(n, h);
    } else {
      CDivOfNegated(n, h);
      CDivBounds(-n, -h);
    }
  }

  /** Less than 1/32 of a column is lost in it. */
  lemma OffsetIsClose(p: Vertex, q: Vertex, row: int)
    requires p.1 != q.1
    ensures var lost := -32 * Gap(p, q, row, p.0) - Height(p, q) * Offset(p, q, row);
            -Height(p, q) < lost < Height(p, q)
  {
    hide Gap, CDiv;
    var n, h, dt := 32 * (q.0 - p.0) * (row - p.1), q.1 - p.1, (q.0 - p.0) * (row - p.1);
    assert n == 32 * dt;
    GapAtEnd(p, q, row);
    CDivIsClose(n, h);
    assert (-h) * CDiv(n, h) == -(h * CDiv(n, h));
  }

  /** A crossing from `-17/32` on is placed at a column less than 17/32 away; one further left is placed between 15/32
      and 48/32 too far to the right, because the second division rounds towards zero. */
  lemma NodeIsNear(p: Vertex, q: Vertex, row: int)
    requires p.1 != q.1
    ensures 0 < Height(p, q)
    ensures var h := Height(p, q); var off := 32 * Gap(p, q, row, Node(p, q, row));
            if 32 * Gap(p, q, row, 0) < 17 * h then -17 * h < off < 17 * h else 15 * h < off < 48 * h
  {
    OffsetIsClose(p, q, row);
    var h, c, node := Height(p, q), Offset(p, q, row), Node(p, q, row);
    var v := 32 * p.0 + c + 16;
    assert node == CDiv(v, 32);
    CDivBounds(v, 32);
    GapIsLinear(p, q, row, p.0, node);
    GapIsLinear(p, q, row, p.0, 0);
    hide Gap, CDiv, Height, Node, Offset;
    NearColumn(h, Gap(p, q, row, p.0), c, p.0, node);
  }

  /** The arithmetic of it: `g` is the gap at column `x`, and `c` the offset from there. */
  lemma NearColumn(h: int, g: int, c: int, x: int, node: int)
    requires 0 < h && -h < -32 * g - h * c < h
    requires var v := 32 * x + c + 16; if v >= 0 then 0 <= v - 32 * node < 32 else -32 < v - 32 * node <= 0
    ensures var off := 32 * (g + (node - x) * h);
            if 32 * (g + (0 - x) * h) < 17 * h then -17 * h < off < 17 * h else 15 * h < off < 48 * h
  {
    var v, lost := 32 * x + c + 16, -32 * g - h * c;
    var k, m := 32 * node - v + 16, 16 - v;
    assert 32 * (g + (node - x) * h) == h * k - lost;
    assert 32 * (g + (0 - x) * h) == h * m - lost;
    if v >= 0 {
      Scaled(h, -15, k);
      Scaled(h, k, 16);
      Scaled(h, m, 16);
    } else {
      Scaled(h, 16, k);
      Scaled(h, k, 47);
      if v < -1 {
        Scaled(h, 18, m);
      }
    }
  }

  lemma Scaled(h: int, a: int, b: int)
    requires 0 < h && a <= b
    ensures h * a <= h * b
  {
  }

  /** Where the line meets the row exactly in a column, that column is found if and only if it is not negative; a
      negative one is missed by one. */
  lemma NodeOfWholeColumn(p: Vertex, q: Vertex, row: int, x: int)
    requires p.1 != q.1 && Gap(p, q, row, x) == 0
    ensures Node(p, q, row) == if x >= 0 then x else x + 1
    ensures Node(p, q, row) == x <==> x >= 0
  {
    var h, c := Height(p, q), Offset(p, q, row);
    assert h > 0 && Node(p, q, row) == CDiv(32 * p.0 + c + 16, 32);
    OffsetIsClose(p, q, row);
    GapIsLinear(p, q, row, x, p.0);
    hide Gap, Height, CDiv, Node, Offset;
    WholeOffset(h, c, p.0 - x);
    WholeColumn(x);
  }

  lemma WholeColumn(x: int)
    ensures CDiv(32 * x + 16, 32) == if x >= 0 then x else x + 1
  {
    CDivBounds(32 * x + 16, 32);
  }

  lemma WholeOffset(h: int, c: int, d: int)
    requires 0 < h && -h < -32 * (d * h) - h * c < h
    ensures c == -32 * d
  {
    Distribute(h, c, d);
    NoRoom(h, -32 * d - c);
  }

  lemma Distribute(h: int, c: int, d: int)
    ensures -32 * (d * h) - h * c == h * (-32 * d - c)
  {
  }

  lemma NoRoom(h: int, k: int)
    requires 0 < h && -h < h * k < h
    ensures k == 0
  {
    if 0 < k {
      Scaled(h, 1, k);
    } else if k < 0 {
      Scaled(h, k, -1);
    }
  }

  // ---------- exactly which column a crossing gets ----------

  /** Column `x` is where the crossing is placed, without any division: the crossing is rounded to the nearest column,
      a half to the right, as far as the first division is exact; that division loses up to 1/32 of a column towards
      the column of `p`. Left of `-1/2` (or of `-17/32`, by the loss) the place is one column further right, and a half
      goes to the left. */
  predicate PlacedAt(p: Vertex, q: Vertex, row: int, x: int) {
    var h, g0, g := Height(p, q), 32 * Gap(p, q, row, 0), 32 * Gap(p, q, row, x);
    if (if p.0 < 0 then g0 <= 16 * h else g0 < 17 * h) then
      (if x > p.0 then g <= 16 * h else g < 17 * h) && (if x >= p.0 then g > -16 * h else g >= -15 * h)
    else
      (if x > p.0 + 1 then g <= 47 * h else g < 48 * h) && (if x > p.0 then g > 15 * h else g >= 16 * h)
  }

  /** `c` is `n / h` rounded towards zero. */
  ghost predicate Truncated(h: int, n: int, c: int) {
    0 < h && if n >= 0 then 0 <= n - h * c < h else -h < n - h * c <= 0
  }

  lemma OffsetIsTruncated(p: Vertex, q: Vertex, row: int)
    requires p.1 != q.1
    ensures Truncated(Height(p, q), -32 * Gap(p, q, row, p.0), Offset(p, q, row))
  {
    hide Gap, CDiv;
    var n, h, dt := 32 * (q.0 - p.0) * (row - p.1), q.1 - p.1, (q.0 - p.0) * (row - p.1);
    assert n == 32 * dt;
    GapAtEnd(p, q, row);
    if h > 0 {
      CDivBounds(n, h);
    } else {
      CDivOfNegated(n, h);
      CDivBounds(-n, -h);
    }
  }

  lemma TruncatedFrom(h: int, n: int, c: int, k: int)
    requires Truncated(h, n, c)
    ensures c >= k <==> if k > 0 then n >= h * k else n > h * (k - 1)
  {
    assert h * (k - 1) == h * k - h;
    if c >= k {
      Scaled(h, k, c);
      if k > 0 {
        Scaled(h, 1, c);
      }
    } else {
      Scaled(h, c, k - 1);
      assert h * (c + 1) == h * c + h;
      Scaled(h, c + 1, k);
      if k <= 0 {
        Scaled(h, c, -1);
      }
    }
  }

  lemma TruncatedTo(h: int, n: int, c: int, m: int)
    requires Truncated(h, n, c)
    ensures c <= m <==> if m >= 0 then n < h * (m + 1) else n <= h * m
  {
    TruncatedFrom(h, n, c, m + 1);
  }

  /** Which column gets the crossing, as an equivalence over all columns. */
  lemma NodeIff(p: Vertex, q: Vertex, row: int, x: int)
    requires p.1 != q.1
    ensures x == Node(p, q, row) <==> PlacedAt(p, q, row, x)
  {
    var h, c, v := Height(p, q), Offset(p, q, row), 32 * p.0 + Offset(p, q, row) + 16;
    assert Node(p, q, row) == CDiv(v, 32);
    OffsetIsTruncated(p, q, row);
    CDivBounds(v, 32);
    GapIsLinear(p, q, row, p.0, x);
    GapIsLinear(p, q, row, p.0, 0);
    hide Gap, CDiv, Height, Node, Offset;
    PlacedArithmetic(h, Gap(p, q, row, p.0), c, p.0, x);
  }

  lemma PlacedArithmetic(h: int, g: int, c: int, px: int, x: int)
    requires Truncated(h, -32 * g, c)
    ensures var v := 32 * px + c + 16;
            var g0, gx := 32 * (g + (0 - px) * h), 32 * (g + (x - px) * h);
            && (v >= 0 <==> if px < 0 then g0 <= 16 * h else g0 < 17 * h)
            && (32 * x <= v < 32 * x + 32 <==>
                (if x > px then gx <= 16 * h else gx < 17 * h) && (if x >= px then gx > -16 * h else gx >= -15 * h))
            && (32 * x - 32 < v <= 32 * x <==>
                (if x > px + 1 then gx <= 47 * h else gx < 48 * h) && (if x > px then gx > 15 * h else gx >= 16 * h))
  {
    hide Truncated;
    var n, t := -32 * g, (x - px) * h;
    var t0 := (0 - px) * h;
    Products(h, px, 0);
    Products(h, px, x);
    TruncatedFrom(h, n, c, 32 * (0 - px) - 16);
    TruncatedFrom(h, n, c, 32 * (x - px) - 16);
    TruncatedTo(h, n, c, 32 * (x - px) + 15);
    TruncatedFrom(h, n, c, 32 * (x - px) - 47);
    TruncatedTo(h, n, c, 32 * (x - px) - 16);
  }

  lemma Products(h: int, px: int, x: int)
    ensures var t := (x - px) * h;
            && h * (32 * (x - px) - 16) == 32 * t - 16 * h && h * (32 * (x - px) - 16 - 1) == 32 * t - 17 * h
            && h * (32 * (x - px) + 15 + 1) == 32 * t + 16 * h && h * (32 * (x - px) + 15) == 32 * t + 15 * h
            && h * (32 * (x - px) - 47) == 32 * t - 47 * h && h * (32 * (x - px) - 47 - 1) == 32 * t - 48 * h
            && h * (32 * (x - px) - 16 + 1) == 32 * t - 15 * h
  {
  }

  /** Where the first division loses nothing, a crossing from column `-1/2` on is rounded to the nearest column, and a
      half to the right. */
  lemma NodeRoundsHalfUp(p: Vertex, q: Vertex, row: int, x: int)
    requires p.1 != q.1 && 32 * Gap(p, q, row, p.0) % Height(p, q) == 0
    requires 32 * Gap(p, q, row, 0) <= 16 * Height(p, q)
    ensures x == Node(p, q, row) <==>
            -16 * Height(p, q) < 32 * Gap(p, q, row, x) <= 16 * Height(p, q)
  {
    NodeIff(p, q, row, x);
    GapIsLinear(p, q, row, p.0, x);
    assert 0 < Height(p, q);
    hide Gap, Height, Node;
    var k := WholeGap(Height(p, q), Gap(p, q, row, p.0), x - p.0);
    NoHalfway(Height(p, q), k, 16);
    NoHalfway(Height(p, q), k, -16);
  }

  lemma WholeGap(h: int, g: int, n: int) returns (k: int)
    requires 0 < h && 32 * g % h == 0
    ensures 32 * (g + n * h) == h * k
  {
    var d := 32 * g / h;
    ExactQuotient(32 * g, h);
    k := d + 32 * n;
    Spread(h, d, n);
  }

  lemma ExactQuotient(n: int, h: int)
    requires 0 < h && n % h == 0
    ensures n == h * (n / h)
  {
  }

  lemma Spread(h: int, d: int, n: int)
    ensures h * (d + 32 * n) == h * d + 32 * (n * h)
  {
  }

  /** No multiple of `h` lies strictly between two neighbouring ones. */
  lemma NoHalfway(h: int, k: int, a: int)
    requires 0 < h
    ensures h * k < (a + 1) * h <==> h * k <= a * h
  {
    if k <= a {
      Scaled(h, k, a);
    } else {
      Scaled(h, a + 1, k);
    }
  }

  /** In particular vertical edges are found exactly from column zero on. */
  lemma NodeOfVerticalEdge(p: Vertex, q: Vertex, row: int)
    requires p.1 != q.1 && p.0 == q.0
    ensures Node(p, q, row) == if p.0 >= 0 then p.0 else p.0 + 1
  {
    NodeOfWholeColumn(p, q, row, p.0);
  }

  /** The fraction of `d` cut off by `t` out of `h` lies between zero and `d`. */
  lemma FractionIsBetween(d: int, t: int, h: int)
    requires h != 0 && (if h > 0 then 0 <= t <= h else h <= t <= 0)
    ensures if d >= 0 then 0 <= CDiv(d * t, h) <= d else d <= CDiv(d * t, h) <= 0
  {
    var t', h' := if h > 0 then t else -t, if h > 0 then h else -h;
    assert d * t == if h > 0 then d * t' else -(d * t');
    var d' := if d >= 0 then d else -d;
    QuotientIsBetween(d', t', h');
    assert d * t' == if d >= 0 then d' * t' else -(d' * t');
  }

  lemma QuotientIsBetween(d: int, t: int, h: int)
    requires 0 <= d && 0 < h && 0 <= t <= h
    ensures 0 <= d * t && 0 <= d * t / h <= d
  {
    assert 0 <= d * t <= d * h;
    assert d * t == h * (d * t / h) + d * t % h;
    NoGreater(h, d * t / h, d);
  }

  lemma NoGreater(h: int, a: int, b: int)
    requires 0 < h && h * a <= b * h
    ensures a <= b
  {
  }

  /** A crossing lies between the ends of its edge, except that an edge wholly at negative columns may
      be placed one column to the right of its end. */
  lemma NodeIsOnEdge(p: Vertex, q: Vertex, row: int)
    requires Crosses(p, q, row)
    ensures var lo, hi := if p.0 < q.0 then p.0 else q.0, if p.0 < q.0 then q.0 else p.0;
            lo <= Node(p, q, row) <= if hi < 0 then hi + 1 else hi
  {
    FractionIsBetween(32 * (q.0 - p.0), row - p.1, q.1 - p.1);
    var v := 32 * p.0 + CDiv(32 * (q.0 - p.0) * (row - p.1), q.1 - p.1) + 16;
    CDivBounds(v, 32);
  }

  /** An edge between columns from zero on meets no row left of column zero. */
  lemma CrossingIsNotNegative(p: Vertex, q: Vertex, row: int)
    requires Crosses(p, q, row) && 0 <= p.0 && 0 <= q.0
    ensures Gap(p, q, row, 0) <= 0
  {
    var h, t := q.1 - p.1, row - p.1;
    assert (0 - p.0) * h - (q.0 - p.0) * t == -(p.0 * (h - t)) - q.0 * t;
    if h > 0 {
      assert p.0 * (h - t) >= 0 && q.0 * t >= 0;
    } else {
      assert p.0 * (t - h) >= 0 && q.0 * (-t) >= 0;
      assert p.0 * (t - h) == -(p.0 * (h - t)) && q.0 * (-t) == -(q.0 * t);
    }
  }

  // ---------- the even-odd rule ----------

  function CountBelow(s: seq<int>, x: int): nat {
    if s == [] then 0 else CountBelow(s[..|s| - 1], x) + if s[|s| - 1] < x then 1 else 0
  }

  /** Inside by the even-odd rule: on a crossing, or right of an odd number of them. */
  predicate Inside(nodes: seq<int>, x: int) {
    x in nodes || CountBelow(nodes, x) % 2 == 1
  }

  ghost predicate Sorted(s: seq<int>) {
    forall i, j :: 0 <= i < j < |s| ==> s[i] <= s[j]
  }

  predicate InPair(s: seq<int>, k: int, x: int)
    requires 0 <= k < |s| - 1
  {
    s[k] <= x <= s[k + 1]
  }

  predicate InSpans(s: seq<int>, n: int, x: int) {
    exists k :: 0 <= k < n && k < |s| - 1 && k % 2 == 0 && InPair(s, k, x)
  }

  lemma {:induction false} CountIsPosition(s: seq<int>, x: int)
    requires Sorted(s)
    ensures CountBelow(s, x) <= |s|
    ensures forall i :: 0 <= i < |s| ==> (s[i] < x <==> i < CountBelow(s, x))
  {
    if s != [] {
      CountIsPosition(s[..|s| - 1], x);
    }
  }

  /** Filling between the sorted pairs is the even-odd rule. */
  lemma PairsAreEvenOdd(s: seq<int>, x: int)
    requires Sorted(s) && |s| % 2 == 0
    ensures InSpans(s, |s|, x) <==> Inside(s, x)
  {
    CountIsPosition(s, x);
    var c := CountBelow(s, x);
    if Inside(s, x) {
      if c % 2 == 1 {
        assert InPair(s, c - 1, x);
      } else {
        var i :| 0 <= i < |s| && s[i] == x;
        assert InPair(s, c, x);
      }
    }
  }

  lemma {:induction false} CountOfSplit(s: seq<int>, j: int, x: int)
    requires 0 <= j < |s|
    ensures CountBelow(s, x) == CountBelow(s[..j] + s[j + 1..], x) + if s[j] < x then 1 else 0
    decreases |s|
  {
    var init := s[..|s| - 1];
    if j < |s| - 1 {
      CountOfSplit(init, j, x);
      var rest := s[..j] + s[j + 1..];
      assert rest[..|rest| - 1] == init[..j] + init[j + 1..];
    } else {
      assert s[..j] + s[j + 1..] == init;
    }
  }

  lemma WithoutOne(s: seq<int>, j: int)
    requires 0 <= j < |s|
    ensures multiset(s[..j] + s[j + 1..]) == multiset(s) - multiset{s[j]}
  {
    assert s == s[..j] + [s[j]] + s[j + 1..];
  }

  /** Sorting does not change the count. */
  lemma {:induction false} CountOfPermutation(s: seq<int>, t: seq<int>, x: int)
    requires multiset(s) == multiset(t)
    ensures CountBelow(s, x) == CountBelow(t, x)
    decreases |s|
  {
    SameLength(s, t);
    if s != [] {
      hide CountBelow;
      var init, v := s[..|s| - 1], s[|s| - 1];
      assert s == init + [v];
      CountOneMore(init, v, x);
      var j := PlaceOf(s, t);
      CountOfSplit(t, j, x);
      SameWithout(s, t, j);
      CountOfPermutation(init, t[..j] + t[j + 1..], x);
    }
  }

  lemma SameLength(s: seq<int>, t: seq<int>)
    requires multiset(s) == multiset(t)
    ensures |s| == |t|
  {
    assert |s| == |multiset(s)| == |t|;
  }

  lemma PlaceOf(s: seq<int>, t: seq<int>) returns (j: int)
    requires s != [] && multiset(s) == multiset(t)
    ensures 0 <= j < |t| && t[j] == s[|s| - 1]
  {
    assert s[|s| - 1] in multiset(t);
    j :| 0 <= j < |t| && t[j] == s[|s| - 1];
  }

  lemma SameWithout(s: seq<int>, t: seq<int>, j: int)
    requires s != [] && multiset(s) == multiset(t) && 0 <= j < |t| && t[j] == s[|s| - 1]
    ensures multiset(s[..|s| - 1]) == multiset(t[..j] + t[j + 1..])
  {
    WithoutOne(s, |s| - 1);
    WithoutOne(t, j);
    assert s[..|s| - 1] + s[|s|..] == s[..|s| - 1];
  }

  lemma InsideOfPermutation(s: seq<int>, t: seq<int>, x: int)
    requires multiset(s) == multiset(t)
    ensures Inside(s, x) == Inside(t, x)
  {
    CountOfPermutation(s, t, x);
    assert x in s <==> x in multiset(s);
    assert x in t <==> x in multiset(t);
  }

  // ---------- the rule without the rounding formula ----------

  ghost predicate PlacedLeft(p: Vertex, q: Vertex, row: int, x: int) {
    exists y :: y < x && PlacedAt(p, q, row, y)
  }

  /** How many of the first `j` edges are crossed at a column left of `x`. */
  ghost function PlacedBelow(vs: seq<Vertex>, row: int, j: int, x: int): nat
    requires 0 <= j <= |vs| && 0 < |vs|
    decreases j
  {
    if j == 0 then 0
    else
      var p, q := Corner(vs, j - 1), Corner(vs, j);
      PlacedBelow(vs, row, j - 1, x) + if Crosses(p, q, row) && PlacedLeft(p, q, row, x) then 1 else 0
  }

  ghost predicate PlacedOn(vs: seq<Vertex>, row: int, j: int, x: int) {
    exists i :: 0 <= i < j && j <= |vs| && EdgePlacedOn(vs, row, i, x)
  }

  ghost predicate EdgePlacedOn(vs: seq<Vertex>, row: int, i: int, x: int)
    requires 0 <= i < |vs|
  {
    Crosses(Corner(vs, i), Corner(vs, i + 1), row) && PlacedAt(Corner(vs, i), Corner(vs, i + 1), row, x)
  }

  lemma LeftIff(p: Vertex, q: Vertex, row: int, x: int)
    requires p.1 != q.1
    ensures Node(p, q, row) < x <==> PlacedLeft(p, q, row, x)
  {
    hide Node, PlacedAt;
    NodeIff(p, q, row, Node(p, q, row));
    if y :| y < x && PlacedAt(p, q, row, y) {
      NodeIff(p, q, row, y);
    }
  }

  lemma {:induction false} CountIsPlaced(vs: seq<Vertex>, row: int, j: int, x: int)
    requires 0 <= j <= |vs| && 0 < |vs|
    ensures CountBelow(Nodes(vs, row, j), x) == PlacedBelow(vs, row, j, x)
    ensures x in Nodes(vs, row, j) <==> PlacedOn(vs, row, j, x)
    decreases j
  {
    if j > 0 {
      hide Node, Crosses, PlacedLeft, PlacedAt, Corner, PlacedBelow, CountBelow, Nodes, PlacedOn;
      CountIsPlaced(vs, row, j - 1, x);
      NodesOneMore(vs, row, j);
      PlacedOneMore(vs, row, j, x);
      var p, q := Corner(vs, j - 1), Corner(vs, j);
      if Crosses(p, q, row) {
        CrossingEdge(p, q, row);
        LeftIff(p, q, row, x);
        NodeIff(p, q, row, x);
        CountOneMore(Nodes(vs, row, j - 1), Node(p, q, row), x);
      }
    } else {
      assert !PlacedOn(vs, row, 0, x);
    }
  }

  lemma PlacedOneMore(vs: seq<Vertex>, row: int, j: int, x: int)
    requires 0 < j <= |vs|
    ensures var p, q := Corner(vs, j - 1), Corner(vs, j);
            && PlacedBelow(vs, row, j, x) ==
               PlacedBelow(vs, row, j - 1, x) + (if Crosses(p, q, row) && PlacedLeft(p, q, row, x) then 1 else 0)
            && (PlacedOn(vs, row, j, x) <==>
                PlacedOn(vs, row, j - 1, x) || (Crosses(p, q, row) && PlacedAt(p, q, row, x)))
  {
    hide Crosses, PlacedLeft, PlacedAt, Corner;
    assert Corner(vs, j - 1 + 1) == Corner(vs, j);
    if PlacedOn(vs, row, j - 1, x) {
      var i :| 0 <= i < j - 1 && EdgePlacedOn(vs, row, i, x);
      assert i < j;
    }
    if Crosses(Corner(vs, j - 1), Corner(vs, j), row) && PlacedAt(Corner(vs, j - 1), Corner(vs, j), row, x) {
      assert EdgePlacedOn(vs, row, j - 1, x);
    }
  }

  /** The interior: a column on which a crossing is placed, or one with an odd number of them to the left. */
  lemma InsideIff(vs: seq<Vertex>, row: int, x: int)
    requires 0 < |vs|
    ensures Inside(Nodes(vs, row, |vs|), x) <==>
            PlacedOn(vs, row, |vs|, x) || PlacedBelow(vs, row, |vs|, x) % 2 == 1
  {
    CountIsPlaced(vs, row, |vs|, x);
  }

  /** The edges of the walk are those between each vertex and the next one, the last and the first included. */
  lemma EdgeIs(vs: seq<Vertex>, j: int)
    requires 0 <= j < |vs|
    ensures Corner(vs, j + 1) == vs[|vs| - 1 - j]
    ensures Corner(vs, j) == vs[if j == 0 then 0 else |vs| - j]
  {
  }

  // ---------- the polygon itself ----------

  /** How many of the first `j` edges meet the row strictly left of column `x`, without any rounding. */
  function TrueBelow(vs: seq<Vertex>, row: int, j: int, x: int): nat
    requires 0 <= j <= |vs| && 0 < |vs|
    decreases j
  {
    if j == 0 then 0
    else
      var p, q := Corner(vs, j - 1), Corner(vs, j);
      TrueBelow(vs, row, j - 1, x) + if Crosses(p, q, row) && Gap(p, q, row, x) > 0 then 1 else 0
  }

  /** The pixel is clear of where the rounding may put the crossing: at least 17/32 of a column away from a crossing
      from `-17/32` on, and not within the 48/32 to the right of one further left. */
  predicate Away(p: Vertex, q: Vertex, row: int, x: int) {
    var gap, h := Gap(p, q, row, x), Height(p, q);
    if 32 * Gap(p, q, row, 0) < 17 * h then 32 * gap >= 17 * h || 32 * gap <= -17 * h
    else 32 * gap >= 48 * h || gap <= 0
  }

  ghost predicate Clear(vs: seq<Vertex>, row: int, j: int, x: int)
    requires 0 < |vs|
  {
    forall i :: 0 <= i < j <= |vs| && Crosses(Corner(vs, i), Corner(vs, i + 1), row) ==>
      Away(Corner(vs, i), Corner(vs, i + 1), row, x)
  }

  lemma NodeIsOnTheRightSide(p: Vertex, q: Vertex, row: int, x: int)
    requires Crosses(p, q, row) && Away(p, q, row, x)
    ensures Node(p, q, row) != x
    ensures Node(p, q, row) < x <==> Gap(p, q, row, x) > 0
  {
    NodeIsNear(p, q, row);
    GapIsLinear(p, q, row, Node(p, q, row), x);
    hide Node, Gap, Height;
    if 32 * Gap(p, q, row, 0) < 17 * Height(p, q) {
      RightSide(Height(p, q), Gap(p, q, row, Node(p, q, row)), x - Node(p, q, row), -17, 17);
    } else {
      RightSide(Height(p, q), Gap(p, q, row, Node(p, q, row)), x - Node(p, q, row), 0, 48);
    }
  }

  /** A crossing found between `lo` and `hi` leaves no doubt about columns beyond. */
  lemma RightSide(h: int, g: int, d: int, lo: int, hi: int)
    requires 0 < h && -32 <= lo <= 0 <= hi && lo * h < 32 * g < hi * h
    requires 32 * (g + d * h) >= hi * h || 32 * (g + d * h) <= lo * h
    ensures d != 0 && (d > 0 <==> g + d * h > 0)
  {
    if d > 0 {
      Scaled(h, 1, d);
      Scaled(h, -32, lo);
    } else {
      Scaled(h, d, 0);
      Scaled(h, lo, 0);
    }
  }

  lemma NodesOneMore(vs: seq<Vertex>, row: int, j: int)
    requires 0 < j <= |vs|
    ensures var p, q := Corner(vs, j - 1), Corner(vs, j);
            Nodes(vs, row, j) ==
            if Crosses(p, q, row) then Nodes(vs, row, j - 1) + [Node(p, q, row)] else Nodes(vs, row, j - 1)
  {
  }

  lemma TrueOneMore(vs: seq<Vertex>, row: int, j: int, x: int)
    requires 0 < j <= |vs|
    ensures var p, q := Corner(vs, j - 1), Corner(vs, j);
            TrueBelow(vs, row, j, x) ==
            TrueBelow(vs, row, j - 1, x) + if Crosses(p, q, row) && Gap(p, q, row, x) > 0 then 1 else 0
  {
  }

  lemma CountOneMore(s: seq<int>, node: int, x: int)
    ensures CountBelow(s + [node], x) == CountBelow(s, x) + if node < x then 1 else 0
    ensures x !in s && node != x ==> x !in s + [node]
  {
    assert (s + [node])[..|s|] == s;
  }

  lemma ClearAt(vs: seq<Vertex>, row: int, j: int, x: int)
    requires 0 < j <= |vs| && Clear(vs, row, j, x)
    ensures Clear(vs, row, j - 1, x)
    ensures Crosses(Corner(vs, j - 1), Corner(vs, j), row) ==> Away(Corner(vs, j - 1), Corner(vs, j), row, x)
  {
    hide Corner, Crosses, Away;
    if Crosses(Corner(vs, j - 1), Corner(vs, j - 1 + 1), row) {
      assert Away(Corner(vs, j - 1), Corner(vs, j - 1 + 1), row, x);
    }
  }

  lemma {:induction false} CountIsTrue(vs: seq<Vertex>, row: int, j: int, x: int)
    requires 0 <= j <= |vs| && 0 < |vs| && Clear(vs, row, j, x)
    ensures x !in Nodes(vs, row, j) && CountBelow(Nodes(vs, row, j), x) == TrueBelow(vs, row, j, x)
    decreases j
  {
    if j > 0 {
      hide Node, Crosses, Gap, Away, Height, Corner, TrueBelow, CountBelow, Nodes, Clear;
      ClearAt(vs, row, j, x);
      CountIsTrue(vs, row, j - 1, x);
      NodesOneMore(vs, row, j);
      TrueOneMore(vs, row, j, x);
      var p, q := Corner(vs, j - 1), Corner(vs, j);
      if Crosses(p, q, row) {
        CrossingEdge(p, q, row);
        NodeIsOnTheRightSide(p, q, row, x);
        CountOneMore(Nodes(vs, row, j - 1), Node(p, q, row), x);
      }
    }
  }

  lemma CrossingEdge(p: Vertex, q: Vertex, row: int)
    requires Crosses(p, q, row)
    ensures p.1 != q.1
  {
  }

  /** The rule refines geometry: for a pixel clear of the edges, inside by the rounded crossings is inside the polygon
      itself. */
  lemma InsideIsTrue(vs: seq<Vertex>, row: int, x: int)
    requires 0 < |vs| && Clear(vs, row, |vs|, x)
    ensures Inside(Nodes(vs, row, |vs|), x) <==> TrueBelow(vs, row, |vs|, x) % 2 == 1
  {
    CountIsTrue(vs, row, |vs|, x);
  }
}
