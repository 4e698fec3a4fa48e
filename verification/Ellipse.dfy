/** The midpoint ellipse: what each of its two loops computes, and what is painted. */
module EllipseArcs {
  import opened Basics

  /** Zero on the ellipse with squared radii `aa` and `bb`, positive outside. */
  function Err(aa: int, bb: int, x: int, y: int): int {
    bb * (x * x) + aa * (y * y) - aa * bb
  }

  /** The column chosen for row `y + 1` when row `y` has column `x`. */
  function Next(aa: int, bb: int, x: int, y: int): int {
    if Err(aa, bb, x, y + 1) + Err(aa, bb, x - 1, y + 1) > 0 then x - 1 else x
  }

  /** The column the loop holds after the rows of `arc`. */
  function Column(aa: int, bb: int, a: int, arc: seq<int>): int {
    if arc == [] then a else Next(aa, bb, arc[|arc| - 1], |arc| - 1)
  }

  /** The slope test of the loop. */
  predicate Steep(aa: int, bb: int, x: int, y: int) {
    bb * x >= aa * y
  }

  /** `arc[y]` is the column drawn in row `y`, so far. */
  ghost predicate ArcSoFar(aa: int, bb: int, a: int, arc: seq<int>) {
    forall k :: 0 <= k < |arc| ==>
      arc[k] == Column(aa, bb, a, arc[..k]) && Steep(aa, bb, arc[k], k)
  }

  /** The whole arc: it goes on exactly as long as the slope test holds. */
  ghost predicate Arc(aa: int, bb: int, a: int, arc: seq<int>) {
    ArcSoFar(aa, bb, a, arc) && !Steep(aa, bb, Column(aa, bb, a, arc), |arc|)
  }

  // ---------- the running quantities of the loop ----------

  lemma ErrDown(aa: int, bb: int, x: int, y: int)
    ensures Err(aa, bb, x, y + 1) == Err(aa, bb, x, y) + aa * (1 + 2 * y)
  {
    assert (y + 1) * (y + 1) == y * y + 2 * y + 1;
  }

  lemma ErrLeft(aa: int, bb: int, x: int, y: int)
    ensures Err(aa, bb, x - 1, y) == Err(aa, bb, x, y) + bb * (1 - 2 * x)
  {
    assert (x - 1) * (x - 1) == x * x - 2 * x + 1;
  }

  // ---------- what the arcs are ----------

  lemma {:induction false} ErrGrows(aa: int, bb: int, x: int, x': int, y: int)
    requires 0 < bb && 0 <= x < x'
    ensures Err(aa, bb, x, y) < Err(aa, bb, x', y)
    decreases x'
  {
    ErrLeft(aa, bb, x', y);
    assert bb * (1 - 2 * x') < 0;
    if x < x' - 1 {
      ErrGrows(aa, bb, x, x' - 1, y);
    }
  }

  /** Each decision takes the column with the smaller absolute error, the outer one on a tie. */
  lemma NextIsNearer(aa: int, bb: int, x: int, y: int)
    requires 0 < bb && 1 <= x
    ensures Next(aa, bb, x, y) == x - 1 <==> Abs(Err(aa, bb, x - 1, y + 1)) < Abs(Err(aa, bb, x, y + 1))
  {
    ErrGrows(aa, bb, x - 1, x, y + 1);
  }

  /** Among all columns, `x` has the least absolute error exactly when it does not lose to either
      neighbour. */
  lemma NearestColumn(aa: int, bb: int, x: int, y: int)
    requires 0 < bb && 1 <= x
    ensures (forall x' :: x < x' ==> Abs(Err(aa, bb, x, y)) < Abs(Err(aa, bb, x', y))) <==>
            Err(aa, bb, x, y) + Err(aa, bb, x + 1, y) > 0
    ensures (forall x' :: 0 <= x' < x ==> Abs(Err(aa, bb, x, y)) <= Abs(Err(aa, bb, x', y))) <==>
            Err(aa, bb, x, y) + Err(aa, bb, x - 1, y) <= 0
  {
    ErrGrows(aa, bb, x, x + 1, y);
    ErrGrows(aa, bb, x - 1, x, y);
    var e := Err(aa, bb, x, y);
    if e + Err(aa, bb, x + 1, y) > 0 {
      forall x' | x < x'
        ensures Abs(e) < Abs(Err(aa, bb, x', y))
      {
        if x + 1 < x' {
          ErrGrows(aa, bb, x + 1, x', y);
        }
      }
    }
    if e + Err(aa, bb, x - 1, y) <= 0 {
      forall x' | 0 <= x' < x
        ensures Abs(e) <= Abs(Err(aa, bb, x', y))
      {
        if x' < x - 1 {
          ErrGrows(aa, bb, x', x - 1, y);
        }
      }
    }
  }

  lemma ErrRight(aa: int, bb: int, x: int, y: int)
    ensures Err(aa, bb, x + 1, y) == Err(aa, bb, x, y) + bb * (1 + 2 * x)
  {
    ErrLeft(aa, bb, x + 1, y);
  }

  /** With positive radii, every drawn pixel is the nearest of its row: strictly nearer to the ellipse than
      everything further out, and no further from it than anything further in. */
  lemma ArcIsNearest(aa: int, bb: int, a: int, arc: seq<int>, k: int)
    requires 0 < aa && 0 < bb && 0 < a && aa == a * a
    requires ArcSoFar(aa, bb, a, arc) && 0 <= k < |arc|
    ensures 1 <= arc[k] <= a
    ensures forall x' :: arc[k] < x' ==> Abs(Err(aa, bb, arc[k], k)) < Abs(Err(aa, bb, x', k))
    ensures forall x' :: 0 <= x' < arc[k] ==> Abs(Err(aa, bb, arc[k], k)) <= Abs(Err(aa, bb, x', k))
  {
    ArcBeatsOutside(aa, bb, a, arc, k);
    ArcBeatsInside(aa, bb, a, arc, k);
    NearestColumn(aa, bb, arc[k], k);
  }

  lemma {:induction false} ArcBeatsInside(aa: int, bb: int, a: int, arc: seq<int>, k: int)
    requires 0 < aa && 0 < bb && 0 < a && aa == a * a
    requires ArcSoFar(aa, bb, a, arc) && 0 <= k < |arc|
    ensures Err(aa, bb, arc[k], k) + Err(aa, bb, arc[k] - 1, k) <= 0
  {
    hide Err, Steep;
    assert arc[k] == Column(aa, bb, a, arc[..k]) && Steep(aa, bb, arc[k], k);
    if k == 0 {
      FirstColumnInside(aa, bb, a);
    } else {
      var x := arc[k - 1];
      assert arc[..k][k - 1] == x;
      ArcBeatsInside(aa, bb, a, arc, k - 1);
      InsideStaysWorse(aa, bb, x, k - 1);
    }
  }

  lemma FirstColumnInside(aa: int, bb: int, a: int)
    requires 0 < bb && 0 < a && aa == a * a
    ensures Err(aa, bb, a, 0) + Err(aa, bb, a - 1, 0) <= 0
  {
    assert Err(aa, bb, a, 0) == 0;
    ErrLeft(aa, bb, a, 0);
    assert bb * (1 - 2 * a) < 0;
  }

  /** Here the slope test matters: it is what makes a single step inwards enough. */
  lemma InsideStaysWorse(aa: int, bb: int, x: int, y: int)
    requires 0 < aa && 0 <= y && Err(aa, bb, x, y) + Err(aa, bb, x - 1, y) <= 0
    requires Steep(aa, bb, Next(aa, bb, x, y), y + 1)
    ensures var n := Next(aa, bb, x, y); Err(aa, bb, n, y + 1) + Err(aa, bb, n - 1, y + 1) <= 0
  {
    hide Err;
    if Next(aa, bb, x, y) == x - 1 {
      ErrDown(aa, bb, x - 1, y);
      ErrDown(aa, bb, x - 2, y);
      ErrLeft(aa, bb, x - 1, y);
      ErrLeft(aa, bb, x, y);
      assert bb * (1 - 2 * (x - 1)) + bb * (1 - 2 * x) == -4 * (bb * (x - 1));
      assert 2 * (aa * (1 + 2 * y)) == 4 * (aa * (y + 1)) - 2 * aa;
    }
  }

  lemma {:induction false} ArcBeatsOutside(aa: int, bb: int, a: int, arc: seq<int>, k: int)
    requires 0 < aa && 0 < bb && 0 < a && aa == a * a
    requires ArcSoFar(aa, bb, a, arc) && 0 <= k < |arc|
    ensures 1 <= arc[k] <= a
    ensures Err(aa, bb, arc[k], k) + Err(aa, bb, arc[k] + 1, k) > 0
  {
    hide Err, Steep;
    assert arc[k] == Column(aa, bb, a, arc[..k]) && Steep(aa, bb, arc[k], k);
    if k == 0 {
      FirstColumn(aa, bb, a);
    } else {
      var x := arc[k - 1];
      assert arc[..k][k - 1] == x;
      ArcBeatsOutside(aa, bb, a, arc, k - 1);
      OutsideStaysWorse(aa, bb, x, k - 1);
      PositiveColumn(aa, bb, arc[k], k);
    }
  }

  lemma FirstColumn(aa: int, bb: int, a: int)
    requires 0 < bb && 0 < a && aa == a * a
    ensures Err(aa, bb, a, 0) + Err(aa, bb, a + 1, 0) > 0
  {
    assert Err(aa, bb, a, 0) == 0;
    ErrRight(aa, bb, a, 0);
    assert bb * (1 + 2 * a) > 0;
  }

  lemma OutsideStaysWorse(aa: int, bb: int, x: int, y: int)
    requires 0 < aa && 0 <= y && Err(aa, bb, x, y) + Err(aa, bb, x + 1, y) > 0
    ensures var n := Next(aa, bb, x, y); Err(aa, bb, n, y + 1) + Err(aa, bb, n + 1, y + 1) > 0
  {
    hide Err;
    ErrDown(aa, bb, x, y);
    ErrDown(aa, bb, x + 1, y);
    assert aa * (1 + 2 * y) > 0;
  }

  lemma PositiveColumn(aa: int, bb: int, x: int, y: int)
    requires 0 < aa && 0 < bb && 0 < y && Steep(aa, bb, x, y)
    ensures 1 <= x
  {
    assert aa * y > 0;
  }

  /** The closed forms of the quantities that the loop updates by addition only. */
  ghost predicate Running(aa: int, bb: int, x: int, y: int, err: int, xchange: int, ychange: int, sx: int, sy: int) {
    && err == Err(aa, bb, x, y)
    && xchange == bb * (1 - 2 * x) && ychange == aa * (1 + 2 * y)
    && sx == 2 * (bb * x) && sy == 2 * (aa * y)
  }

  /** One pass through the loop keeps the closed forms and makes the decision of `Next`. */
  lemma RowStep(aa: int, bb: int, x: int, y: int, err: int, xchange: int, ychange: int, sx: int, sy: int)
    requires Running(aa, bb, x, y, err, xchange, ychange, sx, sy)
    ensures if 2 * (err + ychange) + xchange > 0 then
              && Next(aa, bb, x, y) == x - 1
              && Running(aa, bb, x - 1, y + 1, err + ychange + xchange, xchange + 2 * bb, ychange + 2 * aa,
                         sx - 2 * bb, sy + 2 * aa)
            else
              && Next(aa, bb, x, y) == x
              && Running(aa, bb, x, y + 1, err + ychange, xchange, ychange + 2 * aa, sx, sy + 2 * aa)
  {
    hide Err;
    ErrDown(aa, bb, x, y);
    ErrLeft(aa, bb, x, y + 1);
    assert aa * (1 + 2 * (y + 1)) == aa * (1 + 2 * y) + 2 * aa;
    assert bb * (1 - 2 * (x - 1)) == bb * (1 - 2 * x) + 2 * bb;
    assert bb * (x - 1) == bb * x - bb && aa * (y + 1) == aa * y + aa;
  }

  lemma SlopeTest(aa: int, bb: int, x: int, y: int, err: int, xchange: int, ychange: int, sx: int, sy: int)
    requires Running(aa, bb, x, y, err, xchange, ychange, sx, sy)
    ensures sx >= sy <==> Steep(aa, bb, x, y)
  {
  }

  /** With a zero radius the arc is a single row, so the loop ends there too. */
  lemma FlatArcStops(bb: int, x: int, y: int)
    requires 0 < bb && x <= 0 && Steep(0, bb, x, y)
    ensures Next(0, bb, x, y) == x - 1
  {
    assert x == 0;
    assert Err(0, bb, 0, y + 1) == 0;
    ErrLeft(0, bb, 0, y + 1);
  }

  lemma ArcGrows(aa: int, bb: int, a: int, arc: seq<int>, x: int)
    requires ArcSoFar(aa, bb, a, arc) && x == Column(aa, bb, a, arc) && Steep(aa, bb, x, |arc|)
    ensures ArcSoFar(aa, bb, a, arc + [x])
    ensures Column(aa, bb, a, arc + [x]) == Next(aa, bb, x, |arc|)
  {
    hide Steep, Next;
    var more := arc + [x];
    forall k | 0 <= k < |more|
      ensures more[k] == Column(aa, bb, a, more[..k]) && Steep(aa, bb, more[k], k)
    {
      if k < |arc| {
        assert more[..k] == arc[..k];
        assert arc[k] == Column(aa, bb, a, arc[..k]);
      } else {
        assert more[..k] == arc;
      }
    }
  }

  /** The arc is determined by the radii: no other list of columns meets the specification. */
  lemma {:induction false} ArcIsUnique(aa: int, bb: int, a: int, arc: seq<int>, other: seq<int>)
    requires Arc(aa, bb, a, arc) && Arc(aa, bb, a, other)
    ensures arc == other
  {
    hide Steep, Next;
    var n := if |arc| < |other| then |arc| else |other|;
    SamePrefix(aa, bb, a, arc, other, n);
    assert arc[..|arc|] == arc && other[..|other|] == other;
  }

  lemma {:induction false} SamePrefix(aa: int, bb: int, a: int, arc: seq<int>, other: seq<int>, n: nat)
    requires ArcSoFar(aa, bb, a, arc) && ArcSoFar(aa, bb, a, other)
    requires n <= |arc| && n <= |other|
    ensures arc[..n] == other[..n]
  {
    hide Steep, Next;
    if n > 0 {
      SamePrefix(aa, bb, a, arc, other, n - 1);
      assert arc[n - 1] == Column(aa, bb, a, arc[..n - 1]);
      assert other[n - 1] == Column(aa, bb, a, other[..n - 1]);
      assert arc[..n] == arc[..n - 1] + [arc[n - 1]] && other[..n] == other[..n - 1] + [other[n - 1]];
    }
  }

  lemma ArcColumns(aa: int, bb: int, a: int, arc: seq<int>)
    requires 0 < aa && 0 < bb && 0 < a && aa == a * a && Arc(aa, bb, a, arc)
    ensures arc != [] && arc[0] == a
    ensures forall k :: 0 <= k < |arc| ==> 1 <= arc[k] <= a
    ensures forall k :: 0 <= k < |arc| - 1 ==> arc[k] - 1 <= arc[k + 1] <= arc[k]
  {
    hide Err;
    assert Steep(aa, bb, a, 0);
    assert arc[..0] == [];
    forall k | 0 <= k < |arc|
      ensures 1 <= arc[k] <= a
    {
      ArcBeatsOutside(aa, bb, a, arc, k);
    }
    forall k | 0 <= k < |arc| - 1
      ensures arc[k] - 1 <= arc[k + 1] <= arc[k]
    {
      assert arc[..k + 1][k] == arc[k];
    }
  }

  lemma {:induction false} ArcDescends(arc: seq<int>, k: int)
    requires 0 <= k < |arc| && forall i :: 0 <= i < |arc| - 1 ==> arc[i] - 1 <= arc[i + 1] <= arc[i]
    ensures arc[|arc| - 1] <= arc[k] <= arc[0]
    decreases |arc|
  {
    if |arc| > 1 {
      if k < |arc| - 1 {
        ArcDescends(arc[..|arc| - 1], k);
      } else {
        ArcDescends(arc[..|arc| - 1], k - 1);
      }
    }
  }

  /** An arc leaves out no value between its ends. */
  lemma {:induction false} ArcIsDense(arc: seq<int>, y: int) returns (k: int)
    requires arc != [] && arc[|arc| - 1] <= y <= arc[0]
    requires forall i :: 0 <= i < |arc| - 1 ==> arc[i] - 1 <= arc[i + 1] <= arc[i]
    ensures 0 <= k < |arc| && arc[k] == y
    decreases |arc|
  {
    if arc[|arc| - 1] == y {
      k := |arc| - 1;
    } else {
      k := ArcIsDense(arc[..|arc| - 1], y);
    }
  }

  // ---------- which pixels are drawn, by the radii alone ----------

  /** The pixel is on the steep side, and the ellipse passes no nearer to its inner neighbour. */
  predicate Fits(aa: int, bb: int, x: int, y: int) {
    bb * x >= aa * y && bb * (x * x + (x - 1) * (x - 1)) + 2 * (aa * (y * y)) <= 2 * (aa * bb)
  }

  /** It is moreover nearer to the ellipse than its outer neighbour. */
  predicate Nearest(aa: int, bb: int, x: int, y: int) {
    1 <= x && Fits(aa, bb, x, y) && bb * (x * x + (x + 1) * (x + 1)) + 2 * (aa * (y * y)) > 2 * (aa * bb)
  }

  lemma FitsMeans(aa: int, bb: int, x: int, y: int)
    ensures Fits(aa, bb, x, y) <==> Steep(aa, bb, x, y) && Err(aa, bb, x, y) + Err(aa, bb, x - 1, y) <= 0
    ensures Nearest(aa, bb, x, y) <==> 1 <= x && Fits(aa, bb, x, y) && Err(aa, bb, x, y) + Err(aa, bb, x + 1, y) > 0
  {
    assert bb * (x * x + (x - 1) * (x - 1)) == bb * (x * x) + bb * ((x - 1) * (x - 1));
    assert bb * (x * x + (x + 1) * (x + 1)) == bb * (x * x) + bb * ((x + 1) * (x + 1));
  }

  lemma ErrGrowsOrStays(aa: int, bb: int, x: int, x': int, y: int)
    requires 0 < bb && 0 <= x <= x'
    ensures Err(aa, bb, x, y) <= Err(aa, bb, x', y)
  {
    if x < x' {
      ErrGrows(aa, bb, x, x', y);
    }
  }

  lemma ErrGrowsDown(aa: int, bb: int, x: int, y: int, y': int)
    requires 0 < aa && 0 <= y <= y'
    ensures Err(aa, bb, x, y) <= Err(aa, bb, x, y')
  {
    SquareGrows(y, y');
    assert aa * (y' * y' - y * y) >= 0;
    assert aa * (y' * y' - y * y) == aa * (y' * y') - aa * (y * y);
  }

  /** A pixel that loses to its outer neighbour shuts out every column further out, in this row and the rows below. */
  lemma NothingFurtherOut(aa: int, bb: int, c: int, n: int, x: int, y: int)
    requires 0 < aa && 0 < bb && 0 <= c < x && 0 <= n <= y
    requires Err(aa, bb, c, n) + Err(aa, bb, c + 1, n) > 0
    ensures Err(aa, bb, x, y) + Err(aa, bb, x - 1, y) > 0
  {
    hide Err;
    ErrGrowsOrStays(aa, bb, c, x - 1, n);
    ErrGrowsOrStays(aa, bb, c + 1, x, n);
    ErrGrowsDown(aa, bb, x - 1, n, y);
    ErrGrowsDown(aa, bb, x, n, y);
  }

  lemma SteepIsWider(aa: int, bb: int, c: int, n: int, x: int, y: int)
    requires 0 < aa && 0 < bb && n <= y && !Steep(aa, bb, c, n) && Steep(aa, bb, x, y)
    ensures c < x
  {
    assert aa * (y - n) >= 0 && aa * (y - n) == aa * y - aa * n;
    Cancel(bb, c, x);
  }

  lemma DrawnIsNearest(aa: int, bb: int, a: int, arc: seq<int>, k: int)
    requires 0 < aa && 0 < bb && 0 < a && aa == a * a && Arc(aa, bb, a, arc) && 0 <= k < |arc|
    ensures Nearest(aa, bb, arc[k], k) && arc[k] <= a
  {
    hide Err, Fits, Nearest, Column, Steep;
    ArcBeatsOutside(aa, bb, a, arc, k);
    ArcBeatsInside(aa, bb, a, arc, k);
    FitsMeans(aa, bb, arc[k], k);
  }

  /** The loop does not stop above a pixel that fits. */
  lemma FittingRowIsDrawn(aa: int, bb: int, a: int, arc: seq<int>, x: int, y: int)
    requires 0 < aa && 0 < bb && 0 < a && aa == a * a && Arc(aa, bb, a, arc) && 0 <= y && Fits(aa, bb, x, y)
    ensures y < |arc|
  {
    hide Err, Fits, Steep;
    ArcColumns(aa, bb, a, arc);
    var n := |arc|;
    var c := Column(aa, bb, a, arc);
    ArcBeatsOutside(aa, bb, a, arc, n - 1);
    OutsideStaysWorse(aa, bb, arc[n - 1], n - 1);
    FitsMeans(aa, bb, x, y);
    if n <= y {
      SteepIsWider(aa, bb, c, n, x, y);
      NothingFurtherOut(aa, bb, c, n, x, y);
    }
  }

  /** The steep arc has exactly the rows in which a pixel fits. */
  lemma RowsOfArc(aa: int, bb: int, a: int, arc: seq<int>, y: int)
    requires 0 < aa && 0 < bb && 0 < a && aa == a * a && Arc(aa, bb, a, arc) && 0 <= y
    ensures y < |arc| <==> exists x :: 1 <= x <= a && Fits(aa, bb, x, y)
  {
    hide Arc, Fits;
    if y < |arc| {
      DrawnIsNearest(aa, bb, a, arc, y);
    }
    if x :| 1 <= x <= a && Fits(aa, bb, x, y) {
      FittingRowIsDrawn(aa, bb, a, arc, x, y);
    }
  }

  /** Exactly the pixels of the arc, from the radii alone: a pixel is drawn if and only if it is the nearest of its row
      on the steep side. */
  lemma PixelsOfArc(aa: int, bb: int, a: int, arc: seq<int>, x: int, y: int)
    requires 0 < aa && 0 < bb && 0 < a && aa == a * a && Arc(aa, bb, a, arc) && 0 <= y
    ensures y < |arc| && arc[y] == x <==> Nearest(aa, bb, x, y)
  {
    hide Arc, Fits;
    if y < |arc| {
      DrawnIsNearest(aa, bb, a, arc, y);
      if Nearest(aa, bb, x, y) {
        hide Nearest;
        OneIsNearest(aa, bb, x, arc[y], y);
      }
    } else if Nearest(aa, bb, x, y) {
      FittingRowIsDrawn(aa, bb, a, arc, x, y);
    }
  }

  lemma OneIsNearest(aa: int, bb: int, x: int, x': int, y: int)
    requires 0 < aa && 0 < bb && 0 <= y && Nearest(aa, bb, x, y) && Nearest(aa, bb, x', y)
    ensures x == x'
  {
    hide Err, Fits, Nearest, Steep;
    FitsMeans(aa, bb, x, y);
    FitsMeans(aa, bb, x', y);
    if x < x' {
      NothingFurtherOut(aa, bb, x, y, x', y);
    } else if x' < x {
      NothingFurtherOut(aa, bb, x', y, x, y);
    }
  }

  lemma FitsIsLow(aa: int, bb: int, x: int, y: int)
    requires 0 <= bb && Fits(aa, bb, x, y)
    ensures aa * (y * y) <= aa * bb
  {
    NoNegative(bb, x * x + (x - 1) * (x - 1));
  }

  lemma NoNegative(h: int, s: int)
    requires 0 <= h && 0 <= s
    ensures 0 <= h * s
  {
  }

  lemma NearestIsInside(aa: int, bb: int, b: int, x: int, y: int)
    requires 0 < aa && 0 <= b && bb == b * b && 1 <= x && Fits(aa, bb, x, y)
    ensures y <= b
  {
    hide Fits;
    NoNegative(b, b);
    FitsIsLow(aa, bb, x, y);
    if b < y {
      SquareGrows(b + 1, y);
      assert (b + 1) * (b + 1) == bb + 2 * b + 1;
      MultipleGrows(aa, bb, y * y);
    }
  }

  lemma MultipleGrows(h: int, a: int, b: int)
    requires 0 < h && a < b
    ensures h * a < h * b
  {
  }

  // ---------- whether the two arcs meet ----------

  /** Row `y` of the ellipse gets a pixel: from the steep arc, which has one for each of its rows, or from the flat
      one. */
  ghost predicate RowDrawn(arc1: seq<int>, arc2: seq<int>, y: int) {
    y < |arc1| || y in arc2
  }

  predicate FittingRow(a: int, b: int, y: int) {
    exists x :: 1 <= x <= a && Fits(a * a, b * b, x, y)
  }

  /** The same by the radii: a pixel fits in the row, or the row is the nearest of a column on the flat side. */
  predicate RowHit(a: int, b: int, y: int) {
    FittingRow(a, b, y) || exists k :: 0 <= k <= a && Nearest(b * b, a * a, y, k)
  }

  lemma RowDrawnIff(a: int, b: int, arc1: seq<int>, arc2: seq<int>, y: int)
    requires 0 < a && 0 < b && Arc(a * a, b * b, a, arc1) && Arc(b * b, a * a, b, arc2) && 0 <= y
    ensures RowDrawn(arc1, arc2, y) <==> RowHit(a, b, y)
  {
    hide Arc, Fits;
    Squares(a, b);
    RowsOfArc(a * a, b * b, a, arc1, y);
    if y in arc2 {
      var k :| 0 <= k < |arc2| && arc2[k] == y;
      PixelsOfArc(b * b, a * a, b, arc2, y, k);
      NearestIsInside(b * b, a * a, a, y, k);
    }
    if k :| 0 <= k <= a && Nearest(b * b, a * a, y, k) {
      PixelsOfArc(b * b, a * a, b, arc2, y, k);
    }
  }

  /** Some row of the flat arc lies directly below a row in which a pixel of the steep one fits. */
  predicate ArcsMeet(a: int, b: int) {
    exists k, y :: 0 <= k <= a && 1 <= y <= b && Nearest(b * b, a * a, y, k) && FittingRow(a, b, y - 1)
  }

  /** Every row of the ellipse is drawn if and only if the arcs meet, which the radii decide. */
  lemma EveryRowIff(a: int, b: int, arc1: seq<int>, arc2: seq<int>)
    requires 0 < a && 0 < b && Arc(a * a, b * b, a, arc1) && Arc(b * b, a * a, b, arc2)
    ensures (forall y :: 0 <= y <= b ==> RowDrawn(arc1, arc2, y)) <==> ArcsMeet(a, b)
  {
    hide Arc, Fits;
    Squares(a, b);
    NoGapIff(a, b, arc1, arc2);
    ArcColumns(b * b, a * a, b, arc2);
    var last := |arc2| - 1;
    if arc2[last] <= |arc1| {
      var y := arc2[last];
      PixelsOfArc(b * b, a * a, b, arc2, y, last);
      NearestIsInside(b * b, a * a, a, y, last);
      RowsOfArc(a * a, b * b, a, arc1, y - 1);
      assert FittingRow(a, b, y - 1);
    }
    if k, y :| 0 <= k <= a && 1 <= y <= b && Nearest(b * b, a * a, y, k) && FittingRow(a, b, y - 1) {
      PixelsOfArc(b * b, a * a, b, arc2, y, k);
      RowsOfArc(a * a, b * b, a, arc1, y - 1);
      ArcDescends(arc2, k);
    }
  }

  /** There is no gap if and only if the flat arc comes down to the rows of the steep one. */
  lemma NoGapIff(a: int, b: int, arc1: seq<int>, arc2: seq<int>)
    requires 0 < a && 0 < b && Arc(a * a, b * b, a, arc1) && Arc(b * b, a * a, b, arc2)
    ensures arc2 != []
    ensures (forall y :: 0 <= y <= b ==> RowDrawn(arc1, arc2, y)) <==> arc2[|arc2| - 1] <= |arc1|
  {
    hide Arc;
    Squares(a, b);
    ArcColumns(b * b, a * a, b, arc2);
    var last := arc2[|arc2| - 1];
    if last <= |arc1| {
      forall y | 0 <= y <= b
        ensures RowDrawn(arc1, arc2, y)
      {
        if y >= |arc1| {
          var k := ArcIsDense(arc2, y);
        }
      }
    } else {
      var y := |arc1|;
      if y in arc2 {
        var k :| 0 <= k < |arc2| && arc2[k] == y;
        ArcDescends(arc2, k);
      }
      assert !RowDrawn(arc1, arc2, y);
    }
  }

  lemma Squares(a: int, b: int)
    requires a != 0 || b != 0
    ensures 0 <= a * a && 0 <= b * b && (a != 0 ==> 0 < a * a) && (b != 0 ==> 0 < b * b)
  {
  }

  /** A circle has no gap. */
  lemma CircleIsClosed(a: int, arc1: seq<int>, arc2: seq<int>)
    requires 0 < a && Arc(a * a, a * a, a, arc1) && Arc(a * a, a * a, a, arc2)
    ensures forall y :: 0 <= y <= a ==> RowDrawn(arc1, arc2, y)
  {
    hide Err;
    ArcIsUnique(a * a, a * a, a, arc1, arc2);
    Squares(a, a);
    ArcColumns(a * a, a * a, a, arc1);
    var n, x := |arc1|, arc1[|arc1| - 1];
    var next := Next(a * a, a * a, x, n - 1);
    assert next == Column(a * a, a * a, a, arc1);
    Cancel(a * a, next, n);
    NoGapIff(a, a, arc1, arc2);
  }

  lemma Cancel(h: int, a: int, b: int)
    requires 0 < h && h * a < h * b
    ensures a < b
  {
  }

  /** The steep arc of an ellipse of width one is a bar up to where the half square of the height is passed. */
  lemma ThinBar(b: int, arc: seq<int>)
    requires 0 < b && Arc(1, b * b, 1, arc)
    ensures arc != [] && 2 * ((|arc| - 1) * (|arc| - 1)) <= b * b < 2 * (|arc| * |arc|)
  {
    hide Next, Err;
    Squares(b, b);
    ArcColumns(1, b * b, 1, arc);
    var n := |arc|;
    if n > 1 {
      assert arc[n - 1] == Column(1, b * b, 1, arc[..n - 1]);
      assert arc[..n - 1][n - 2] == arc[n - 2] == 1;
      ThinStep(b, n - 1);
    }
    ThinStep(b, n);
    BarIsLow(b * b, n);
  }

  lemma BarIsLow(bb: int, n: int)
    requires 0 < n
    ensures 2 * (n * n) <= bb ==> Steep(1, bb, 1, n)
  {
    assert n <= n * n;
  }

  lemma ThinStep(b: int, y: int)
    ensures Next(1, b * b, 1, y - 1) == if 2 * (y * y) - b * b > 0 then 0 else 1
  {
  }

  lemma ThinCap(b: int, arc: seq<int>)
    requires 0 < b && Arc(b * b, 1, b, arc)
    ensures arc == [b]
  {
    Squares(b, b);
    ArcColumns(b * b, 1, b, arc);
    if |arc| > 1 {
      assert Steep(b * b, 1, arc[1], 1);
      assert arc[..1] == [b] && arc[1] == Next(b * b, 1, b, 0);
      CapStep(b);
    }
  }

  lemma CapStep(b: int)
    requires 0 < b
    ensures Next(b * b, 1, b, 0) == b - 1 && !Steep(b * b, 1, b - 1, 1)
  {
    assert Err(b * b, 1, b, 1) == b * b;
    assert Err(b * b, 1, b - 1, 1) == (b - 1) * (b - 1);
    assert b * b >= b;
  }

  /** An ellipse of half width one has all its rows exactly up to half height three; with ten, the rows eight and nine
      are missing. */
  lemma ThinEllipseIff(b: int, arc1: seq<int>, arc2: seq<int>)
    requires 0 < b && Arc(1 * 1, b * b, 1, arc1) && Arc(b * b, 1 * 1, b, arc2)
    ensures (forall y :: 0 <= y <= b ==> RowDrawn(arc1, arc2, y)) <==> b <= 3
    ensures b == 10 ==> !RowDrawn(arc1, arc2, 8) && !RowDrawn(arc1, arc2, 9)
  {
    hide Arc;
    ThinBar(b, arc1);
    ThinCap(b, arc2);
    NoGapIff(1, b, arc1, arc2);
    HalfSquare(b, |arc1|);
  }

  lemma HalfSquare(b: int, n: int)
    requires 0 < b && 0 < n && 2 * ((n - 1) * (n - 1)) <= b * b < 2 * (n * n)
    ensures b <= n <==> b <= 3
    ensures b == 10 ==> n == 8
  {
    if b <= n {
      SquareGrows(b - 1, n - 1);
      SquareBeats(b);
    } else {
      SquareGrows(n, b - 1);
    }
    if b == 10 && n < 8 {
      SquareGrows(n, 7);
    }
    if b == 10 && 8 < n {
      SquareGrows(8, n - 1);
    }
  }

  lemma SquareGrows(a: int, b: int)
    requires 0 <= a <= b
    ensures a * a <= b * b
  {
  }

  lemma SquareBeats(b: int)
    ensures 4 <= b ==> 2 * ((b - 1) * (b - 1)) > b * b
  {
    assert 2 * ((b - 1) * (b - 1)) - b * b == (b - 4) * b + 2;
  }
}

/** `framebuf_ellipse`. */
module Ellipse {
  import opened Basics
  import opened PixelFormat
  import opened FrameBuffers
  import opened Painting
  import opened EllipseArcs

  /** The fill flag and the four quadrant flags. */
  datatype Quadrants = Quadrants(fill: bool, q1: bool, q2: bool, q3: bool, q4: bool)

  /** The pixels that one computed point stands for: a point or a span in each chosen quadrant. */
  predicate Covers(m: Quadrants, cx: int, cy: int, x: int, y: int, px: int, py: int) {
    if m.fill then
      || (m.q1 && Box(cx, cy - y, x + 1, 1)(px, py))
      || (m.q2 && Box(cx - x, cy - y, x + 1, 1)(px, py))
      || (m.q3 && Box(cx - x, cy + y, x + 1, 1)(px, py))
      || (m.q4 && Box(cx, cy + y, x + 1, 1)(px, py))
    else
      || (m.q1 && px == cx + x && py == cy - y)
      || (m.q2 && px == cx - x && py == cy - y)
      || (m.q3 && px == cx - x && py == cy + y)
      || (m.q4 && px == cx + x && py == cy + y)
  }

  /** The chosen quadrants: right and up, left and up, left and down, right and down, each with its two axes. */
  predicate InQuadrant(m: Quadrants, dx: int, dy: int) {
    || (m.q1 && dx >= 0 && dy <= 0)
    || (m.q2 && dx <= 0 && dy <= 0)
    || (m.q3 && dx <= 0 && dy >= 0)
    || (m.q4 && dx >= 0 && dy >= 0)
  }

  /** A point stands for its mirror images in the chosen quadrants and, filled, for what is between them and the
      vertical axis. */
  lemma CoversIff(m: Quadrants, cx: int, cy: int, x: int, y: int, px: int, py: int)
    requires 0 <= x && 0 <= y
    ensures Covers(m, cx, cy, x, y, px, py) <==>
            && InQuadrant(m, px - cx, py - cy) && Abs(py - cy) == y
            && (if m.fill then Abs(px - cx) <= x else Abs(px - cx) == x)
  {
  }

  function PointMark(m: Quadrants, cx: int, cy: int, x: int, y: int): Mark {
    (px, py) => Covers(m, cx, cy, x, y, px, py)
  }

  /** The pixels of point `k` of an arc; `flip` exchanges rows and columns. */
  predicate CoversNth(m: Quadrants, cx: int, cy: int, arc: seq<int>, flip: bool, k: int, px: int, py: int)
    requires 0 <= k < |arc|
  {
    if flip then Covers(m, cx, cy, k, arc[k], px, py) else Covers(m, cx, cy, arc[k], k, px, py)
  }

  predicate ArcCovers(m: Quadrants, cx: int, cy: int, arc: seq<int>, flip: bool, px: int, py: int) {
    exists k :: 0 <= k < |arc| && CoversNth(m, cx, cy, arc, flip, k, px, py)
  }

  function ArcMark(m: Quadrants, cx: int, cy: int, arc: seq<int>, flip: bool): Mark {
    (px, py) => ArcCovers(m, cx, cy, arc, flip, px, py)
  }

  function If(on: bool, x: int, y: int): Points {
    if on then [(x, y)] else []
  }

  /** The pixel writes that one computed point leads to, in order; the spans of a filled ellipse are no pixel
      writes. */
  function Writes(m: Quadrants, cx: int, cy: int, x: int, y: int): Points {
    if m.fill then []
    else If(m.q1, cx + x, cy - y) + If(m.q2, cx - x, cy - y) + If(m.q3, cx - x, cy + y) + If(m.q4, cx + x, cy + y)
  }

  function ArcWrites(m: Quadrants, cx: int, cy: int, arc: seq<int>, flip: bool): Points {
    if arc == [] then []
    else
      var k := |arc| - 1;
      ArcWrites(m, cx, cy, arc[..k], flip) + if flip then Writes(m, cx, cy, k, arc[k]) else Writes(m, cx, cy, arc[k], k)
  }

  /** Unfilled, the pixels written are the pixels covered; filled, none is written singly. */
  lemma {:induction false} WritesAreCovered(m: Quadrants, cx: int, cy: int, arc: seq<int>, flip: bool, px: int, py: int)
    ensures (px, py) in ArcWrites(m, cx, cy, arc, flip) <==> !m.fill && ArcCovers(m, cx, cy, arc, flip, px, py)
    decreases |arc|
  {
    if arc != [] {
      hide Covers, Writes, ArcCovers;
      var k := |arc| - 1;
      WritesAreCovered(m, cx, cy, arc[..k], flip, px, py);
      OneMoreCovered(m, cx, cy, arc[..k], flip, arc[k], px, py);
      assert arc[..k] + [arc[k]] == arc;
      PointIsCovered(m, cx, cy, k, arc[k], px, py);
      PointIsCovered(m, cx, cy, arc[k], k, px, py);
    }
  }

  lemma PointIsCovered(m: Quadrants, cx: int, cy: int, x: int, y: int, px: int, py: int)
    ensures (px, py) in Writes(m, cx, cy, x, y) <==> !m.fill && Covers(m, cx, cy, x, y, px, py)
  {
  }

  lemma OneMoreWritten(l: Layout, n: nat, j: Journal, m: Quadrants, cx: int, cy: int, arc: seq<int>, flip: bool, x: int)
    requires l.Valid()
    ensures Noted(l, n, j, ArcWrites(m, cx, cy, arc + [x], flip)) ==
            Noted(l, n, Noted(l, n, j, ArcWrites(m, cx, cy, arc, flip)),
                  if flip then Writes(m, cx, cy, |arc|, x) else Writes(m, cx, cy, x, |arc|))
  {
    hide Writes, Noted;
    assert (arc + [x])[..|arc|] == arc;
    NotedInParts(l, n, j, ArcWrites(m, cx, cy, arc, flip),
                 if flip then Writes(m, cx, cy, |arc|, x) else Writes(m, cx, cy, x, |arc|));
  }

  lemma NotedFour(l: Layout, n: nat, j: Journal, a: Points, b: Points, c: Points, d: Points)
    requires l.Valid()
    ensures Noted(l, n, j, a + b + c + d) == Noted(l, n, Noted(l, n, Noted(l, n, Noted(l, n, j, a), b), c), d)
  {
    hide Noted;
    NotedInParts(l, n, j, a, b);
    NotedInParts(l, n, j, a + b, c);
    NotedInParts(l, n, j, a + b + c, d);
  }

  method PaintSpan(fb: FrameBuffer, on: bool, x: int, y: int, w: int, col: bv32)
    requires fb.Valid()
    modifies fb.buf
    ensures fb.Valid()
    ensures Painted(fb.layout, old(fb.buf[..]), fb.buf[..], Stored(fb.layout.format, col),
                    (px, py) => on && Box(x, y, w, 1)(px, py))
    ensures fb.Logged() == old(fb.Logged())
  {
    hide Painted, Stored, Needed;
    if on {
      PaintBox(fb, x, y, w, 1, col);
      RepaintAs(fb.layout, old(fb.buf[..]), fb.buf[..], Stored(fb.layout.format, col),
                Box(x, y, w, 1), (px, py) => on && Box(x, y, w, 1)(px, py));
    } else {
      NothingPainted(fb.layout, fb.buf[..], Stored(fb.layout.format, col), (px, py) => on && Box(x, y, w, 1)(px, py));
    }
  }

  lemma PaintFour(l: Layout, s: Bytes, s1: Bytes, s2: Bytes, s3: Bytes, t: Bytes, v: bv8,
                  f: Mark, g: Mark, h: Mark, i: Mark, all: Mark)
    requires Painted(l, s, s1, v, f) && Painted(l, s1, s2, v, g)
    requires Painted(l, s2, s3, v, h) && Painted(l, s3, t, v, i)
    requires forall x, y :: l.InFrame(x, y) ==> all(x, y) == (f(x, y) || g(x, y) || h(x, y) || i(x, y))
    ensures Painted(l, s, t, v, all)
  {
    hide Painted;
    PaintBoth(l, s, s1, s2, v, f, g, (x, y) => f(x, y) || g(x, y));
    PaintBoth(l, s2, s3, t, v, h, i, (x, y) => h(x, y) || i(x, y));
    PaintBoth(l, s, s2, t, v, (x, y) => f(x, y) || g(x, y), (x, y) => h(x, y) || i(x, y), all);
  }

  /** The spans of a filled ellipse. */
  method DrawSpans(fb: FrameBuffer, cx: int, cy: int, x: int, y: int, col: bv32, m: Quadrants)
    requires fb.Valid() && m.fill
    modifies fb.buf
    ensures fb.Valid() && fb.Logged() == old(fb.Logged())
    ensures Painted(fb.layout, old(fb.buf[..]), fb.buf[..], Stored(fb.layout.format, col), PointMark(m, cx, cy, x, y))
  {
    hide Painted, Stored, Needed;
    PaintSpan(fb, m.q1, cx, cy - y, x + 1, col);
    ghost var s1 := fb.buf[..];
    PaintSpan(fb, m.q2, cx - x, cy - y, x + 1, col);
    ghost var s2 := fb.buf[..];
    PaintSpan(fb, m.q3, cx - x, cy + y, x + 1, col);
    ghost var s3 := fb.buf[..];
    PaintSpan(fb, m.q4, cx, cy + y, x + 1, col);
    PaintFour(fb.layout, old(fb.buf[..]), s1, s2, s3, fb.buf[..], Stored(fb.layout.format, col),
              (px, py) => m.q1 && Box(cx, cy - y, x + 1, 1)(px, py),
              (px, py) => m.q2 && Box(cx - x, cy - y, x + 1, 1)(px, py),
              (px, py) => m.q3 && Box(cx - x, cy + y, x + 1, 1)(px, py),
              (px, py) => m.q4 && Box(cx, cy + y, x + 1, 1)(px, py), PointMark(m, cx, cy, x, y));
  }

  /** The points of an outline. */
  method DrawFour(fb: FrameBuffer, cx: int, cy: int, x: int, y: int, col: bv32, m: Quadrants)
    requires fb.Valid() && !m.fill
    modifies fb`changedCount, fb`changedCleared, fb.buf, fb.changedIndexes
    ensures fb.Valid()
    ensures Painted(fb.layout, old(fb.buf[..]), fb.buf[..], Stored(fb.layout.format, col), PointMark(m, cx, cy, x, y))
    ensures fb.Logged() == Noted(fb.layout, fb.buf.Length, old(fb.Logged()), Writes(m, cx, cy, x, y))
  {
    hide Painted, Stored, Needed, Noted;
    NotedFour(fb.layout, fb.buf.Length, fb.Logged(), If(m.q1, cx + x, cy - y), If(m.q2, cx - x, cy - y),
              If(m.q3, cx - x, cy + y), If(m.q4, cx + x, cy + y));
    SetChecked(fb, cx + x, cy - y, col, m.q1);
    ghost var s1 := fb.buf[..];
    SetChecked(fb, cx - x, cy - y, col, m.q2);
    ghost var s2 := fb.buf[..];
    SetChecked(fb, cx - x, cy + y, col, m.q3);
    ghost var s3 := fb.buf[..];
    SetChecked(fb, cx + x, cy + y, col, m.q4);
    PaintFour(fb.layout, old(fb.buf[..]), s1, s2, s3, fb.buf[..], Stored(fb.layout.format, col),
              (px, py) => m.q1 && px == cx + x && py == cy - y,
              (px, py) => m.q2 && px == cx - x && py == cy - y,
              (px, py) => m.q3 && px == cx - x && py == cy + y,
              (px, py) => m.q4 && px == cx + x && py == cy + y, PointMark(m, cx, cy, x, y));
  }

  /** `draw_ellipse_points`. */
  method DrawPoints(fb: FrameBuffer, cx: int, cy: int, x: int, y: int, col: bv32, m: Quadrants)
    requires fb.Valid()
    modifies fb`changedCount, fb`changedCleared, fb.buf, fb.changedIndexes
    ensures fb.Valid()
    ensures Painted(fb.layout, old(fb.buf[..]), fb.buf[..], Stored(fb.layout.format, col), PointMark(m, cx, cy, x, y))
    ensures fb.Logged() == Noted(fb.layout, fb.buf.Length, old(fb.Logged()), Writes(m, cx, cy, x, y))
  {
    hide Painted, Stored, Needed, Noted;
    NotedNothing(fb.layout, fb.buf.Length, fb.Logged());
    if m.fill {
      DrawSpans(fb, cx, cy, x, y, col, m);
    } else {
      DrawFour(fb, cx, cy, x, y, col, m);
    }
  }

  lemma OneMoreCovered(m: Quadrants, cx: int, cy: int, arc: seq<int>, flip: bool, x: int, px: int, py: int)
    ensures ArcCovers(m, cx, cy, arc + [x], flip, px, py) <==>
            ArcCovers(m, cx, cy, arc, flip, px, py)
            || (if flip then Covers(m, cx, cy, |arc|, x, px, py) else Covers(m, cx, cy, x, |arc|, px, py))
  {
    hide Covers;
    var more := arc + [x];
    if ArcCovers(m, cx, cy, arc, flip, px, py) {
      var k :| 0 <= k < |arc| && CoversNth(m, cx, cy, arc, flip, k, px, py);
      assert CoversNth(m, cx, cy, more, flip, k, px, py);
    }
    if ArcCovers(m, cx, cy, more, flip, px, py) {
      var k :| 0 <= k < |more| && CoversNth(m, cx, cy, more, flip, k, px, py);
      if k < |arc| {
        assert CoversNth(m, cx, cy, arc, flip, k, px, py);
      }
    }
    assert CoversNth(m, cx, cy, more, flip, |arc|, px, py) ==
           if flip then Covers(m, cx, cy, |arc|, x, px, py) else Covers(m, cx, cy, x, |arc|, px, py);
  }

  lemma ArcMarkGrows(l: Layout, s: Bytes, u: Bytes, t: Bytes, v: bv8,
                     m: Quadrants, cx: int, cy: int, arc: seq<int>, flip: bool, x: int)
    requires Painted(l, s, u, v, ArcMark(m, cx, cy, arc, flip))
    requires Painted(l, u, t, v, if flip then PointMark(m, cx, cy, |arc|, x) else PointMark(m, cx, cy, x, |arc|))
    ensures Painted(l, s, t, v, ArcMark(m, cx, cy, arc + [x], flip))
  {
    hide Painted, Covers, ArcCovers;
    var p := if flip then PointMark(m, cx, cy, |arc|, x) else PointMark(m, cx, cy, x, |arc|);
    forall px, py | l.InFrame(px, py)
      ensures ArcMark(m, cx, cy, arc + [x], flip)(px, py) == (ArcMark(m, cx, cy, arc, flip)(px, py) || p(px, py))
    {
      OneMoreCovered(m, cx, cy, arc, flip, x, px, py);
    }
    PaintBoth(l, s, u, t, v, ArcMark(m, cx, cy, arc, flip), p, ArcMark(m, cx, cy, arc + [x], flip));
  }

  /** What drawing the arc has done so far, to the picture and to the log. */
  ghost predicate ArcDrawn(l: Layout, s: Bytes, j: Journal, t: Bytes, j': Journal, v: bv8,
                           m: Quadrants, cx: int, cy: int, arc: seq<int>, flip: bool)
    requires l.Valid()
  {
    Painted(l, s, t, v, ArcMark(m, cx, cy, arc, flip)) && j' == Noted(l, |s|, j, ArcWrites(m, cx, cy, arc, flip))
  }

  lemma ArcDrawnGrows(l: Layout, s: Bytes, j: Journal, u: Bytes, i: Journal, t: Bytes, j': Journal, v: bv8,
                      m: Quadrants, cx: int, cy: int, arc: seq<int>, flip: bool, x: int, px: int, py: int)
    requires l.Valid() && ArcDrawn(l, s, j, u, i, v, m, cx, cy, arc, flip) && |u| == |s|
    requires (px, py) == if flip then (|arc|, x) else (x, |arc|)
    requires Painted(l, u, t, v, PointMark(m, cx, cy, px, py)) && j' == Noted(l, |u|, i, Writes(m, cx, cy, px, py))
    ensures ArcDrawn(l, s, j, t, j', v, m, cx, cy, arc + [x], flip)
  {
    hide Painted, Noted, ArcWrites, Writes;
    ArcMarkGrows(l, s, u, t, v, m, cx, cy, arc, flip, x);
    OneMoreWritten(l, |s|, j, m, cx, cy, arc, flip, x);
  }

  lemma NoArcYet(l: Layout, s: Bytes, j: Journal, v: bv8, m: Quadrants, cx: int, cy: int, flip: bool)
    requires l.Valid()
    ensures ArcDrawn(l, s, j, s, j, v, m, cx, cy, [], flip)
  {
    NothingPainted(l, s, v, ArcMark(m, cx, cy, [], flip));
    NotedNothing(l, |s|, j);
  }

  /** The slope quantities approach each other in every pass, even with a zero radius. */
  lemma LoopProgress(aa: int, bb: int, a: int, x: int, y: int)
    requires aa == a * a && 0 <= bb && (a != 0 || 0 < bb) && x <= a && Steep(aa, bb, x, y)
    ensures bb * Next(aa, bb, x, y) - aa * (y + 1) < bb * x - aa * y
    ensures Next(aa, bb, x, y) <= a
  {
    hide Next, Steep;
    NextIsNear(aa, bb, x, y);
    assert bb * (x - 1) == bb * x - bb && aa * (y + 1) == aa * y + aa;
    if a == 0 {
      FlatArcStops(bb, x, y);
    } else {
      assert 0 < aa;
    }
  }

  lemma NextIsNear(aa: int, bb: int, x: int, y: int)
    ensures Next(aa, bb, x, y) == x || Next(aa, bb, x, y) == x - 1
  {
  }

  lemma ArcStarts(a: int, b: int)
    ensures Running(a * a, b * b, a, 0, 0, b * b * (1 - 2 * a), a * a, 2 * b * b * a, 0)
  {
    assert a * a * (b * b) == b * b * (a * a);
    assert 2 * b * b * a == 2 * (b * b * a);
  }

  lemma SlopesFall(aa: int, bb: int, x: int, y: int, err: int, xchange: int, ychange: int, sx: int, sy: int)
    requires Running(aa, bb, x, y, err, xchange, ychange, sx, sy)
    requires bb * Next(aa, bb, x, y) - aa * (y + 1) < bb * x - aa * y
    ensures if 2 * (err + ychange) + xchange > 0 then sx - 2 * bb - (sy + 2 * aa) < sx - sy
            else sx - (sy + 2 * aa) < sx - sy
  {
    hide Err;
    RowStep(aa, bb, x, y, err, xchange, ychange, sx, sy);
  }

  /** The arithmetic of one turn of either loop; in the second one the two coordinates are exchanged. */
  method Advance(ghost aa: int, ghost bb: int, ghost a: int, twoA: int, twoB: int,
                 x: int, ghost y: int, err: int, xchange: int, ychange: int, sx: int, sy: int)
    returns (x': int, err': int, xchange': int, ychange': int, sx': int, sy': int)
    requires aa == a * a && 0 <= bb && (a != 0 || 0 < bb) && x <= a && sx >= sy && twoA == 2 * aa && twoB == 2 * bb
    requires Running(aa, bb, x, y, err, xchange, ychange, sx, sy)
    ensures x' == Next(aa, bb, x, y) && x' <= a
    ensures Running(aa, bb, x', y + 1, err', xchange', ychange', sx', sy')
    ensures sx' >= sy' <==> Steep(aa, bb, x', y + 1)
    ensures sx' - sy' < sx - sy
  {
    hide Steep, Next, Err, Running;
    SlopeTest(aa, bb, x, y, err, xchange, ychange, sx, sy);
    LoopProgress(aa, bb, a, x, y);
    RowStep(aa, bb, x, y, err, xchange, ychange, sx, sy);
    SlopesFall(aa, bb, x, y, err, xchange, ychange, sx, sy);
    x', sx', xchange' := x, sx, xchange;
    sy' := sy + twoA;
    err' := err + ychange;
    ychange' := ychange + twoA;
    if 2 * err' + xchange > 0 {
      x' := x - 1;
      sx' := sx - twoB;
      err' := err' + xchange;
      xchange' := xchange + twoB;
    }
    SlopeTest(aa, bb, x', y + 1, err', xchange', ychange', sx', sy');
  }

  /** The first loop: rows outwards from the horizontal axis while the arc is steep. */
  method FirstArc(fb: FrameBuffer, cx: int, cy: int, a: int, b: int, col: bv32, m: Quadrants)
    returns (ghost arc: seq<int>)
    requires fb.Valid() && (a != 0 || b != 0)
    modifies fb`changedCount, fb`changedCleared, fb.buf, fb.changedIndexes
    ensures fb.Valid()
    ensures Arc(a * a, b * b, a, arc)
    ensures ArcDrawn(fb.layout, old(fb.buf[..]), old(fb.Logged()), fb.buf[..], fb.Logged(),
                     Stored(fb.layout.format, col), m, cx, cy, arc, false)
  {
    hide Painted, Stored, Needed, Steep, Next, Err, Running, Noted, Writes, ArcDrawn;
    var aa, bb := a * a, b * b;
    Squares(a, b);
    var x, y := a, 0;
    var xchange, ychange, ellipseError := b * b * (1 - 2 * a), a * a, 0;
    var stoppingx, stoppingy := 2 * b * b * a, 0;
    arc := [];
    ArcStarts(a, b);
    NoArcYet(fb.layout, fb.buf[..], fb.Logged(), Stored(fb.layout.format, col), m, cx, cy, false);
    SlopeTest(aa, bb, x, y, ellipseError, xchange, ychange, stoppingx, stoppingy);
    while stoppingx >= stoppingy
      invariant fb.Valid() && y == |arc| && x <= a
      invariant ArcSoFar(aa, bb, a, arc) && x == Column(aa, bb, a, arc)
      invariant Running(aa, bb, x, y, ellipseError, xchange, ychange, stoppingx, stoppingy)
      invariant stoppingx >= stoppingy <==> Steep(aa, bb, x, y)
      invariant ArcDrawn(fb.layout, old(fb.buf[..]), old(fb.Logged()), fb.buf[..], fb.Logged(),
                         Stored(fb.layout.format, col), m, cx, cy, arc, false)
      decreases stoppingx - stoppingy
    {
      ghost var s, i := fb.buf[..], fb.Logged();
      DrawPoints(fb, cx, cy, x, y, col, m);
      ArcDrawnGrows(fb.layout, old(fb.buf[..]), old(fb.Logged()), s, i, fb.buf[..], fb.Logged(),
                    Stored(fb.layout.format, col), m, cx, cy, arc, false, x, x, y);
      ArcGrows(aa, bb, a, arc, x);
      arc := arc + [x];
      x, ellipseError, xchange, ychange, stoppingx, stoppingy :=
        Advance(aa, bb, a, 2 * aa, 2 * bb, x, y, ellipseError, xchange, ychange, stoppingx, stoppingy);
      y := y + 1;
    }
  }

  /** The second loop: columns outwards from the vertical axis, with the two radii exchanged. */
  method SecondArc(fb: FrameBuffer, cx: int, cy: int, a: int, b: int, col: bv32, m: Quadrants)
    returns (ghost arc: seq<int>)
    requires fb.Valid() && (a != 0 || b != 0)
    modifies fb`changedCount, fb`changedCleared, fb.buf, fb.changedIndexes
    ensures fb.Valid()
    ensures Arc(b * b, a * a, b, arc)
    ensures ArcDrawn(fb.layout, old(fb.buf[..]), old(fb.Logged()), fb.buf[..], fb.Logged(),
                     Stored(fb.layout.format, col), m, cx, cy, arc, true)
  {
    hide Painted, Stored, Needed, Steep, Next, Err, Running, Noted, Writes, ArcDrawn;
    var aa, bb := b * b, a * a;
    Squares(a, b);
    var x, y := 0, b;
    var xchange, ychange, ellipseError := b * b, a * a * (1 - 2 * b), 0;
    var stoppingx, stoppingy := 0, 2 * a * a * b;
    arc := [];
    ArcStarts(b, a);
    NoArcYet(fb.layout, fb.buf[..], fb.Logged(), Stored(fb.layout.format, col), m, cx, cy, true);
    SlopeTest(aa, bb, y, x, ellipseError, ychange, xchange, stoppingy, stoppingx);
    while stoppingx <= stoppingy
      invariant fb.Valid() && x == |arc| && y <= b
      invariant ArcSoFar(aa, bb, b, arc) && y == Column(aa, bb, b, arc)
      invariant Running(aa, bb, y, x, ellipseError, ychange, xchange, stoppingy, stoppingx)
      invariant stoppingx <= stoppingy <==> Steep(aa, bb, y, x)
      invariant ArcDrawn(fb.layout, old(fb.buf[..]), old(fb.Logged()), fb.buf[..], fb.Logged(),
                         Stored(fb.layout.format, col), m, cx, cy, arc, true)
      decreases stoppingy - stoppingx
    {
      ghost var s, i := fb.buf[..], fb.Logged();
      DrawPoints(fb, cx, cy, x, y, col, m);
      ArcDrawnGrows(fb.layout, old(fb.buf[..]), old(fb.Logged()), s, i, fb.buf[..], fb.Logged(),
                    Stored(fb.layout.format, col), m, cx, cy, arc, true, y, x, y);
      ArcGrows(aa, bb, b, arc, y);
      arc := arc + [y];
      y, ellipseError, ychange, xchange, stoppingy, stoppingx :=
        Advance(aa, bb, b, 2 * aa, 2 * bb, y, x, ellipseError, ychange, xchange, stoppingy, stoppingx);
      x := x + 1;
    }
  }

  /** The routine starts a new log by itself if one is due. */
  function Opened(j: Journal): Journal {
    Journal(true, if j.cleared then j.entries else [])
  }

  /** `t` is `s` with the ellipse painted, and `j'` the log `j` with its pixel writes: a single pixel when both
      radii are zero, and otherwise the quadrant images of the two arcs. */
  ghost predicate EllipseDrawn(l: Layout, s: Bytes, j: Journal, t: Bytes, j': Journal, v: bv8,
                               cx: int, cy: int, a: int, b: int, m: Quadrants)
    requires l.Valid()
  {
    if a == 0 && b == 0 then
      var any := m.q1 || m.q2 || m.q3 || m.q4;
      && Painted(l, s, t, v, (px, py) => any && px == cx && py == cy)
      && j' == Noted(l, |s|, Opened(j), If(any, cx, cy))
    else
      exists arc1, arc2 ::
        && Arc(a * a, b * b, a, arc1) && Arc(b * b, a * a, b, arc2)
        && Painted(l, s, t, v, BothArcs(m, cx, cy, arc1, arc2))
        && j' == Noted(l, |s|, Opened(j), ArcWrites(m, cx, cy, arc1, false) + ArcWrites(m, cx, cy, arc2, true))
  }

  function BothArcs(m: Quadrants, cx: int, cy: int, arc1: seq<int>, arc2: seq<int>): Mark {
    (px, py) => ArcCovers(m, cx, cy, arc1, false, px, py) || ArcCovers(m, cx, cy, arc2, true, px, py)
  }

  method DrawEllipse(fb: FrameBuffer, cx: int, cy: int, a: int, b: int, col: bv32, m: Quadrants)
    requires fb.Valid()
    modifies fb`changedCount, fb`changedCleared, fb.buf, fb.changedIndexes
    ensures fb.Valid()
    ensures EllipseDrawn(fb.layout, old(fb.buf[..]), old(fb.Logged()), fb.buf[..], fb.Logged(),
                         Stored(fb.layout.format, col), cx, cy, a, b, m)
  {
    hide Painted, Stored, Needed, Arc, ArcCovers, Noted, ArcWrites;
    if !fb.changedCleared {
      fb.changedCount := 0;
      fb.changedCleared := true;
    }
    assert fb.Logged() == Opened(old(fb.Logged()));
    ghost var l, v, s := fb.layout, Stored(fb.layout.format, col), fb.buf[..];
    if a == 0 && b == 0 {
      SetChecked(fb, cx, cy, col, m.q1 || m.q2 || m.q3 || m.q4);
      return;
    }
    ghost var arc1 := FirstArc(fb, cx, cy, a, b, col, m);
    ghost var u := fb.buf[..];
    ghost var arc2 := SecondArc(fb, cx, cy, a, b, col, m);
    PaintBoth(l, s, u, fb.buf[..], v, ArcMark(m, cx, cy, arc1, false), ArcMark(m, cx, cy, arc2, true),
              BothArcs(m, cx, cy, arc1, arc2));
    NotedInParts(l, |s|, Opened(old(fb.Logged())), ArcWrites(m, cx, cy, arc1, false), ArcWrites(m, cx, cy, arc2, true));
  }

  lemma CoveredRow(m: Quadrants, cx: int, cy: int, x: int, y: int, row: int, py: int)
    requires py == cy - row && (m.q1 || m.q2) && 0 <= x && 0 <= y && 0 <= row
    ensures (exists px :: Covers(m, cx, cy, x, y, px, py)) <==> y == row
  {
    if y == row {
      var px := if m.q1 then cx + x else cx - x;
      assert Covers(m, cx, cy, x, y, px, py);
    }
  }

  /** What the gaps between the arcs mean for the picture: a row of the upper half has a pixel, filled or not, if and
      only if one of the arcs has a point in it. */
  lemma PaintedRowIff(m: Quadrants, cx: int, cy: int, arc1: seq<int>, arc2: seq<int>, row: int, py: int)
    requires py == cy - row && (m.q1 || m.q2) && 0 <= row
    requires (forall k :: 0 <= k < |arc1| ==> 0 <= arc1[k]) && (forall k :: 0 <= k < |arc2| ==> 0 <= arc2[k])
    ensures (exists px :: BothArcs(m, cx, cy, arc1, arc2)(px, py)) <==> RowDrawn(arc1, arc2, row)
  {
    hide Covers;
    if px :| BothArcs(m, cx, cy, arc1, arc2)(px, py) {
      if ArcCovers(m, cx, cy, arc1, false, px, py) {
        var k :| 0 <= k < |arc1| && CoversNth(m, cx, cy, arc1, false, k, px, py);
        CoveredRow(m, cx, cy, arc1[k], k, row, py);
      } else {
        var k :| 0 <= k < |arc2| && CoversNth(m, cx, cy, arc2, true, k, px, py);
        CoveredRow(m, cx, cy, k, arc2[k], row, py);
      }
    }
    if row < |arc1| {
      CoveredRow(m, cx, cy, arc1[row], row, row, py);
      var px :| Covers(m, cx, cy, arc1[row], row, px, py);
      assert CoversNth(m, cx, cy, arc1, false, row, px, py);
      assert BothArcs(m, cx, cy, arc1, arc2)(px, py);
    } else if row in arc2 {
      var k :| 0 <= k < |arc2| && arc2[k] == row;
      CoveredRow(m, cx, cy, k, row, row, py);
      var px :| Covers(m, cx, cy, k, row, px, py);
      assert CoversNth(m, cx, cy, arc2, true, k, px, py);
      assert BothArcs(m, cx, cy, arc1, arc2)(px, py);
    }
  }

  /** A pixel of the picture comes from a pixel of the steep side, or from one of the flat side. */
  ghost predicate EllipseCovers(m: Quadrants, cx: int, cy: int, a: int, b: int, px: int, py: int) {
    || (exists x, y :: 0 <= y && Nearest(a * a, b * b, x, y) && Covers(m, cx, cy, x, y, px, py))
    || (exists x, y :: 0 <= x && Nearest(b * b, a * a, y, x) && Covers(m, cx, cy, x, y, px, py))
  }

  lemma SteepSideIff(m: Quadrants, cx: int, cy: int, a: int, b: int, arc: seq<int>, px: int, py: int)
    requires 0 < a && 0 < b && Arc(a * a, b * b, a, arc)
    ensures ArcCovers(m, cx, cy, arc, false, px, py) <==>
            exists x, y :: 0 <= y && Nearest(a * a, b * b, x, y) && Covers(m, cx, cy, x, y, px, py)
  {
    hide Arc, Nearest, Covers;
    Squares(a, b);
    if ArcCovers(m, cx, cy, arc, false, px, py) {
      var k :| 0 <= k < |arc| && CoversNth(m, cx, cy, arc, false, k, px, py);
      PixelsOfArc(a * a, b * b, a, arc, arc[k], k);
    }
    if x, y :| 0 <= y && Nearest(a * a, b * b, x, y) && Covers(m, cx, cy, x, y, px, py) {
      PixelsOfArc(a * a, b * b, a, arc, x, y);
      assert CoversNth(m, cx, cy, arc, false, y, px, py);
    }
  }

  lemma FlatSideIff(m: Quadrants, cx: int, cy: int, a: int, b: int, arc: seq<int>, px: int, py: int)
    requires 0 < a && 0 < b && Arc(b * b, a * a, b, arc)
    ensures ArcCovers(m, cx, cy, arc, true, px, py) <==>
            exists x, y :: 0 <= x && Nearest(b * b, a * a, y, x) && Covers(m, cx, cy, x, y, px, py)
  {
    hide Arc, Nearest, Covers;
    Squares(a, b);
    if ArcCovers(m, cx, cy, arc, true, px, py) {
      var k :| 0 <= k < |arc| && CoversNth(m, cx, cy, arc, true, k, px, py);
      PixelsOfArc(b * b, a * a, b, arc, arc[k], k);
    }
    if x, y :| 0 <= x && Nearest(b * b, a * a, y, x) && Covers(m, cx, cy, x, y, px, py) {
      PixelsOfArc(b * b, a * a, b, arc, y, x);
      assert CoversNth(m, cx, cy, arc, true, x, px, py);
    }
  }

  /** The whole picture by the radii alone: with positive radii, what is painted is the quadrant images of the pixels
      that are nearest on either side. */
  lemma EllipseByRadii(l: Layout, s: Bytes, j: Journal, t: Bytes, j': Journal, v: bv8,
                       cx: int, cy: int, a: int, b: int, m: Quadrants)
    requires l.Valid() && 0 < a && 0 < b && EllipseDrawn(l, s, j, t, j', v, cx, cy, a, b, m)
    ensures Painted(l, s, t, v, (px, py) => EllipseCovers(m, cx, cy, a, b, px, py))
  {
    hide Painted, Arc, ArcCovers, EllipseCovers;
    var arc1, arc2 :|
      && Arc(a * a, b * b, a, arc1) && Arc(b * b, a * a, b, arc2)
      && Painted(l, s, t, v, BothArcs(m, cx, cy, arc1, arc2))
      && j' == Noted(l, |s|, Opened(j), ArcWrites(m, cx, cy, arc1, false) + ArcWrites(m, cx, cy, arc2, true));
    var mark: Mark := (px, py) => EllipseCovers(m, cx, cy, a, b, px, py);
    forall px, py | l.InFrame(px, py)
      ensures BothArcs(m, cx, cy, arc1, arc2)(px, py) == mark(px, py)
    {
      CoversByRadii(m, cx, cy, a, b, arc1, arc2, px, py);
    }
    RepaintAs(l, s, t, v, BothArcs(m, cx, cy, arc1, arc2), mark);
  }

  lemma CoversByRadii(m: Quadrants, cx: int, cy: int, a: int, b: int, arc1: seq<int>, arc2: seq<int>, px: int, py: int)
    requires 0 < a && 0 < b && Arc(a * a, b * b, a, arc1) && Arc(b * b, a * a, b, arc2)
    ensures BothArcs(m, cx, cy, arc1, arc2)(px, py) <==> EllipseCovers(m, cx, cy, a, b, px, py)
  {
    hide Arc, ArcCovers, Nearest, Covers;
    SteepSideIff(m, cx, cy, a, b, arc1, px, py);
    FlatSideIff(m, cx, cy, a, b, arc2, px, py);
  }

  /** A filled ellipse with a radius that is not zero logs nothing: whether its changes are listed rests on what was
      listed before. */
  lemma {:induction false} FilledArcWritesNothing(m: Quadrants, cx: int, cy: int, arc: seq<int>, flip: bool)
    requires m.fill
    ensures ArcWrites(m, cx, cy, arc, flip) == []
  {
    if arc != [] {
      FilledArcWritesNothing(m, cx, cy, arc[..|arc| - 1], flip);
    }
  }

  lemma FilledEllipseLogsNothing(l: Layout, s: Bytes, j: Journal, t: Bytes, j': Journal, v: bv8,
                                 cx: int, cy: int, a: int, b: int, m: Quadrants)
    requires l.Valid() && m.fill && (a != 0 || b != 0) && EllipseDrawn(l, s, j, t, j', v, cx, cy, a, b, m)
    ensures j' == Opened(j)
  {
    hide Painted, Arc, ArcCovers, ArcWrites;
    var arc1, arc2 :|
      && Arc(a * a, b * b, a, arc1) && Arc(b * b, a * a, b, arc2)
      && Painted(l, s, t, v, BothArcs(m, cx, cy, arc1, arc2))
      && j' == Noted(l, |s|, Opened(j), ArcWrites(m, cx, cy, arc1, false) + ArcWrites(m, cx, cy, arc2, true));
    FilledArcWritesNothing(m, cx, cy, arc1, false);
    FilledArcWritesNothing(m, cx, cy, arc2, true);
  }
}
