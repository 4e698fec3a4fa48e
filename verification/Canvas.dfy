/** The byte buffer seen as a picture: a colour for every cell. Every drawing routine is specified
    by what it does to this picture, over the padding cells as well as the frame, so that a
    specification fixes every bit of the buffer. */
module Canvas {
  import opened Basics
  import opened PixelFormat
  import opened PixelGeometry

  /** The cell lies in a buffer of `n` bytes. */
  predicate Has(l: Layout, n: nat, x: int, y: int) {
    l.IsCell(x, y) && 0 <= l.Index(x, y) < n
  }

  function Pixel(l: Layout, s: Bytes, x: int, y: int): bv8
    requires Has(l, |s|, x, y)
  {
    ReadPlace(l.format, s[l.Index(x, y)], l.Place(x, y))
  }

  /** Setting one pixel. */
  function Plot(l: Layout, s: Bytes, x: int, y: int, col: bv32): Bytes
    requires Has(l, |s|, x, y)
  {
    var i := l.Index(x, y);
    s[i := WritePlace(l.format, s[i], l.Place(x, y), col)]
  }

  /** `t` is `s` with the rectangle [x0, x1) by [y0, y1) painted with `v`. */
  ghost predicate Filled(l: Layout, s: Bytes, t: Bytes, x0: int, y0: int, x1: int, y1: int, v: bv8) {
    && |t| == |s|
    && forall x, y :: Has(l, |s|, x, y) ==>
         Pixel(l, t, x, y) == if x0 <= x < x1 && y0 <= y < y1 then v else Pixel(l, s, x, y)
  }

  lemma NothingFilled(l: Layout, s: Bytes, x0: int, y0: int, x1: int, y1: int, v: bv8)
    requires x1 <= x0 || y1 <= y0
    ensures Filled(l, s, s, x0, y0, x1, y1, v)
  {
  }

  lemma PlotPixel(l: Layout, s: Bytes, x: int, y: int, col: bv32, x': int, y': int)
    requires l.Valid() && Has(l, |s|, x, y) && Has(l, |s|, x', y')
    ensures Pixel(l, Plot(l, s, x, y, col), x', y') ==
            if x == x' && y == y' then Stored(l.format, col) else Pixel(l, s, x', y')
  {
    if l.Index(x, y) == l.Index(x', y') {
      if l.Place(x, y) == l.Place(x', y') {
        CellsAreDistinct(l, x, y, x', y');
      }
      ReadAfterWrite(l.format, s[l.Index(x, y)], l.Place(x, y), l.Place(x', y'), col);
    }
  }

  lemma PlotFills(l: Layout, s: Bytes, x: int, y: int, col: bv32)
    requires l.Valid() && Has(l, |s|, x, y)
    ensures Filled(l, s, Plot(l, s, x, y, col), x, y, x + 1, y + 1, Stored(l.format, col))
  {
    forall x', y' | Has(l, |s|, x', y')
      ensures Pixel(l, Plot(l, s, x, y, col), x', y') ==
              if x == x' && y == y' then Stored(l.format, col) else Pixel(l, s, x', y')
    {
      PlotPixel(l, s, x, y, col, x', y');
    }
  }

  lemma JoinColumns(l: Layout, s: Bytes, m: Bytes, t: Bytes, x0: int, x1: int, x2: int, y0: int, y1: int, v: bv8)
    requires x0 <= x1 <= x2
    requires Filled(l, s, m, x0, y0, x1, y1, v) && Filled(l, m, t, x1, y0, x2, y1, v)
    ensures Filled(l, s, t, x0, y0, x2, y1, v)
  {
  }

  lemma JoinRows(l: Layout, s: Bytes, m: Bytes, t: Bytes, x0: int, x1: int, y0: int, y1: int, y2: int, v: bv8)
    requires y0 <= y1 <= y2
    requires Filled(l, s, m, x0, y0, x1, y1, v) && Filled(l, m, t, x0, y1, x1, y2, v)
    ensures Filled(l, s, t, x0, y0, x1, y2, v)
  {
  }

  // ---------- pictures determine buffers ----------

  lemma BitsDetermineByte(b: bv8, c: bv8)
    requires (b >> 0) & 1 == (c >> 0) & 1 && (b >> 1) & 1 == (c >> 1) & 1
    requires (b >> 2) & 1 == (c >> 2) & 1 && (b >> 3) & 1 == (c >> 3) & 1
    requires (b >> 4) & 1 == (c >> 4) & 1 && (b >> 5) & 1 == (c >> 5) & 1
    requires (b >> 6) & 1 == (c >> 6) & 1 && (b >> 7) & 1 == (c >> 7) & 1
    ensures b == c
  {
  }

  lemma NibblesDetermineByte(b: bv8, c: bv8)
    requires b & 0x0f == c & 0x0f && b >> 4 == c >> 4
    ensures b == c
  {
  }

  lemma PlacesAreBits(f: Format, b: bv8)
    requires PlacesPerByte(f) == 8
    ensures ReadPlace(f, b, 0) == (b >> 0) & 1 && ReadPlace(f, b, 1) == (b >> 1) & 1
    ensures ReadPlace(f, b, 2) == (b >> 2) & 1 && ReadPlace(f, b, 3) == (b >> 3) & 1
    ensures ReadPlace(f, b, 4) == (b >> 4) & 1 && ReadPlace(f, b, 5) == (b >> 5) & 1
    ensures ReadPlace(f, b, 6) == (b >> 6) & 1 && ReadPlace(f, b, 7) == (b >> 7) & 1
  {
    hide BitAt, Count;
    BitsOfByte(b);
  }

  lemma BitsOfByte(b: bv8)
    ensures BitAt(b, 0) == (b >> 0) & 1 && BitAt(b, 1) == (b >> 1) & 1
    ensures BitAt(b, 2) == (b >> 2) & 1 && BitAt(b, 3) == (b >> 3) & 1
    ensures BitAt(b, 4) == (b >> 4) & 1 && BitAt(b, 5) == (b >> 5) & 1
    ensures BitAt(b, 6) == (b >> 6) & 1 && BitAt(b, 7) == (b >> 7) & 1
  {
  }

  ghost predicate SamePlaces(f: Format, b: bv8, c: bv8) {
    forall p :: 0 <= p < PlacesPerByte(f) ==> ReadPlace(f, b, p) == ReadPlace(f, c, p)
  }

  lemma PlacesDetermineByte(f: Format, b: bv8, c: bv8)
    requires SamePlaces(f, b, c)
    ensures b == c
  {
    match f
    case GS8 => assert ReadPlace(f, b, 0) == ReadPlace(f, c, 0);
    case GS4HMSB =>
      assert ReadPlace(f, b, 0) == ReadPlace(f, c, 0) && ReadPlace(f, b, 1) == ReadPlace(f, c, 1);
      NibblesDetermineByte(b, c);
    case _ =>
      PlacesAreBits(f, b);
      PlacesAreBits(f, c);
      BitsDetermineByte(b, c);
  }

  /** Two buffers with the same picture are the same buffer. */
  lemma PictureDeterminesBytes(l: Layout, s: Bytes, t: Bytes)
    requires l.Valid() && |s| == |t|
    requires forall x, y :: Has(l, |s|, x, y) ==> Pixel(l, s, x, y) == Pixel(l, t, x, y)
    ensures s == t
  {
    forall i | 0 <= i < |s|
      ensures s[i] == t[i]
    {
      forall p | 0 <= p < PlacesPerByte(l.format)
        ensures ReadPlace(l.format, s[i], p) == ReadPlace(l.format, t[i], p)
      {
        EveryPlaceIsACell(l, i, p);
        var (x, y) := CellAt(l, i, p);
        assert Pixel(l, s, x, y) == Pixel(l, t, x, y);
      }
      assert SamePlaces(l.format, s[i], t[i]);
      PlacesDetermineByte(l.format, s[i], t[i]);
    }
  }

  // ---------- the reference for rectangle fills ----------

  ghost predicate RectFits(l: Layout, n: nat, x0: int, y0: int, x1: int, y1: int) {
    forall x, y :: x0 <= x < x1 && y0 <= y < y1 ==> Has(l, n, x, y)
  }

  /** Setting the pixels of one row one at a time. */
  function PlotRow(l: Layout, s: Bytes, x0: int, x1: int, y: int, col: bv32): (t: Bytes)
    requires RectFits(l, |s|, x0, y, x1, y + 1)
    ensures |t| == |s|
    decreases x1 - x0
  {
    if x0 >= x1 then s else Plot(l, PlotRow(l, s, x0, x1 - 1, y, col), x1 - 1, y, col)
  }

  /** Setting the pixels of a rectangle one at a time. */
  function PlotRect(l: Layout, s: Bytes, x0: int, y0: int, x1: int, y1: int, col: bv32): (t: Bytes)
    requires RectFits(l, |s|, x0, y0, x1, y1)
    ensures |t| == |s|
    decreases y1 - y0
  {
    if y0 >= y1 then s else PlotRow(l, PlotRect(l, s, x0, y0, x1, y1 - 1, col), x0, x1, y1 - 1, col)
  }

  lemma {:induction false} PlotRowFills(l: Layout, s: Bytes, x0: int, x1: int, y: int, col: bv32)
    requires l.Valid() && RectFits(l, |s|, x0, y, x1, y + 1)
    ensures Filled(l, s, PlotRow(l, s, x0, x1, y, col), x0, y, x1, y + 1, Stored(l.format, col))
    decreases x1 - x0
  {
    hide Stored, Needed, Filled, Plot;
    if x0 >= x1 {
      NothingFilled(l, s, x0, y, x1, y + 1, Stored(l.format, col));
    } else {
      var m := PlotRow(l, s, x0, x1 - 1, y, col);
      PlotRowFills(l, s, x0, x1 - 1, y, col);
      PlotFills(l, m, x1 - 1, y, col);
      JoinColumns(l, s, m, Plot(l, m, x1 - 1, y, col), x0, x1 - 1, x1, y, y + 1, Stored(l.format, col));
    }
  }

  lemma {:induction false} PlotRectFills(l: Layout, s: Bytes, x0: int, y0: int, x1: int, y1: int, col: bv32)
    requires l.Valid() && RectFits(l, |s|, x0, y0, x1, y1)
    ensures Filled(l, s, PlotRect(l, s, x0, y0, x1, y1, col), x0, y0, x1, y1, Stored(l.format, col))
    decreases y1 - y0
  {
    if y0 < y1 {
      var m := PlotRect(l, s, x0, y0, x1, y1 - 1, col);
      PlotRectFills(l, s, x0, y0, x1, y1 - 1, col);
      PlotRowFills(l, m, x0, x1, y1 - 1, col);
      JoinRows(l, s, m, PlotRow(l, m, x0, x1, y1 - 1, col), x0, x1, y0, y1 - 1, y1, Stored(l.format, col));
    }
  }

  /** Any way of filling a rectangle leaves the very bytes that setting its pixels one by one leaves. */
  lemma FilledIsPixelByPixel(l: Layout, s: Bytes, t: Bytes, x0: int, y0: int, x1: int, y1: int, col: bv32)
    requires l.Valid() && RectFits(l, |s|, x0, y0, x1, y1)
    requires Filled(l, s, t, x0, y0, x1, y1, Stored(l.format, col))
    ensures t == PlotRect(l, s, x0, y0, x1, y1, col)
  {
    var r := PlotRect(l, s, x0, y0, x1, y1, col);
    PlotRectFills(l, s, x0, y0, x1, y1, col);
    forall x, y | Has(l, |t|, x, y)
      ensures Pixel(l, t, x, y) == Pixel(l, r, x, y)
    {
      assert Has(l, |s|, x, y);
    }
    PictureDeterminesBytes(l, t, r);
  }
}

/** What the bytes are, as numbers: each byte of the buffer from the colours of the pixels it holds. */
module ByteLayout {
  import opened Arithmetic
  import opened Basics
  import opened PixelFormat
  import opened PixelGeometry
  import opened Canvas

  /** The colour of a pixel as a number. */
  function Ink(l: Layout, s: Bytes, x: int, y: int): nat
    requires Has(l, |s|, x, y)
  {
    ValueOf(Pixel(l, s, x, y))
  }

  lemma BitSum(b: bv8)
    ensures ValueOf(b) == ValueOf((b >> 0) & 1) + 2 * ValueOf((b >> 1) & 1) + 4 * ValueOf((b >> 2) & 1) +
                          8 * ValueOf((b >> 3) & 1) + 16 * ValueOf((b >> 4) & 1) + 32 * ValueOf((b >> 5) & 1) +
                          64 * ValueOf((b >> 6) & 1) + 128 * ValueOf((b >> 7) & 1)
  {
  }

  lemma NibbleSum(b: bv8)
    ensures ValueOf(b) == 16 * ValueOf(b >> 4) + ValueOf(b & 0x0f)
  {
  }

  predicate HasBand(l: Layout, n: nat, x: int, y: int) {
    forall r :: y <= r < y + 8 ==> Has(l, n, x, r)
  }

  predicate HasRow(l: Layout, n: nat, x: int, y: int) {
    forall c :: x <= c < x + 8 ==> Has(l, n, c, y)
  }

  /** Eight pixels downwards, each worth twice the one above. */
  function Downwards(l: Layout, s: Bytes, x: int, y: int): nat
    requires HasBand(l, |s|, x, y)
  {
    Ink(l, s, x, y) + 2 * Ink(l, s, x, y + 1) + 4 * Ink(l, s, x, y + 2) + 8 * Ink(l, s, x, y + 3) +
    16 * Ink(l, s, x, y + 4) + 32 * Ink(l, s, x, y + 5) + 64 * Ink(l, s, x, y + 6) + 128 * Ink(l, s, x, y + 7)
  }

  /** Eight pixels to the right, each worth twice the one before. */
  function Rightwards(l: Layout, s: Bytes, x: int, y: int): nat
    requires HasRow(l, |s|, x, y)
  {
    Ink(l, s, x, y) + 2 * Ink(l, s, x + 1, y) + 4 * Ink(l, s, x + 2, y) + 8 * Ink(l, s, x + 3, y) +
    16 * Ink(l, s, x + 4, y) + 32 * Ink(l, s, x + 5, y) + 64 * Ink(l, s, x + 6, y) + 128 * Ink(l, s, x + 7, y)
  }

  /** Eight pixels to the right, each worth half the one before. */
  function Leftwards(l: Layout, s: Bytes, x: int, y: int): nat
    requires HasRow(l, |s|, x, y)
  {
    128 * Ink(l, s, x, y) + 64 * Ink(l, s, x + 1, y) + 32 * Ink(l, s, x + 2, y) + 16 * Ink(l, s, x + 3, y) +
    8 * Ink(l, s, x + 4, y) + 4 * Ink(l, s, x + 5, y) + 2 * Ink(l, s, x + 6, y) + Ink(l, s, x + 7, y)
  }

  /** The number that the places of a byte make. */
  function Placed(f: Format, b: bv8): nat {
    ValueOf(ReadPlace(f, b, 0)) + 2 * ValueOf(ReadPlace(f, b, 1)) + 4 * ValueOf(ReadPlace(f, b, 2)) +
    8 * ValueOf(ReadPlace(f, b, 3)) + 16 * ValueOf(ReadPlace(f, b, 4)) + 32 * ValueOf(ReadPlace(f, b, 5)) +
    64 * ValueOf(ReadPlace(f, b, 6)) + 128 * ValueOf(ReadPlace(f, b, 7))
  }

  lemma PlacedIs(f: Format, b: bv8)
    requires PlacesPerByte(f) == 8
    ensures Placed(f, b) == ValueOf(b)
  {
    hide ReadPlace, ValueOf;
    PlacesAreBits(f, b);
    BitSum(b);
  }

  lemma InkIs(l: Layout, s: Bytes, x: int, y: int, i: int, p: int)
    requires Has(l, |s|, x, y) && l.Index(x, y) == i && l.Place(x, y) == p
    ensures Ink(l, s, x, y) == ValueOf(ReadPlace(l.format, s[i], p))
  {
  }

  lemma BandCell(l: Layout, n: nat, i: int, k: int)
    requires l.Valid() && l.format.MVLSB? && 0 <= i < n && 0 <= k < 8
    ensures var x, y := i % l.stride, i / l.stride * 8 + k;
            Has(l, n, x, y) && l.Index(x, y) == i && l.Place(x, y) == k
  {
    QuotientIsNatural(i, l.stride);
    InMultiple(i / l.stride, 8, k);
  }

  /** Vertical bytes: byte `i` is column `i % stride` of band `i / stride`, and the pixel `k` rows down in the band is
      worth two to the power `k`. */
  lemma VerticalByte(l: Layout, s: Bytes, i: int)
    requires l.Valid() && l.format.MVLSB? && 0 <= i < |s|
    ensures HasBand(l, |s|, i % l.stride, i / l.stride * 8)
    ensures ValueOf(s[i]) == Downwards(l, s, i % l.stride, i / l.stride * 8)
  {
    hide Has, Layout.Index, Layout.Place, ReadPlace, Ink;
    var x, y := i % l.stride, i / l.stride * 8;
    forall r | y <= r < y + 8
      ensures Has(l, |s|, x, r) && Ink(l, s, x, r) == ValueOf(ReadPlace(l.format, s[i], r - y))
    {
      BandCell(l, |s|, i, r - y);
      InkIs(l, s, x, r, i, r - y);
    }
    PlacedIs(l.format, s[i]);
  }

  lemma RowByte(l: Layout, i: int, m: int, k: int)
    requires l.Valid() && 0 < m && l.stride % m == 0 && 0 <= i && 0 <= k < m
    ensures 0 < l.stride / m
    ensures var x, y := i % (l.stride / m) * m, i / (l.stride / m);
            && 0 <= x && x + k < l.stride && 0 <= y
            && (x + k + y * l.stride) / m == i && (x + k) % m == k
  {
    var pitch := l.stride / m;
    Pitch(l.stride, m);
    QuotientIsNatural(i, pitch);
    var x, y := i % pitch * m, i / pitch;
    assert x + m <= pitch * m == l.stride by {
      AtLeastOne(pitch - i % pitch, m);
      assert (pitch - i % pitch) * m == pitch * m - x;
    }
    StrideKeepsRemainder(l.stride, m, x + k, y);
    InMultiple(i % pitch, m, k);
  }

  lemma Pitch(s: int, m: int)
    requires 0 < m && 0 < s && s % m == 0
    ensures 0 < s / m && s == s / m * m
  {
    assert s == s / m * m;
  }

  lemma InMultiple(q: int, m: int, k: int)
    requires 0 <= k < m
    ensures (q * m + k) / m == q && (q * m + k) % m == k
  {
    var n := q * m + k;
    assert n == n % m + n / m * m;
    QuotientIsUnique(m, k, q, n % m, n / m);
  }

  lemma RowCell(l: Layout, n: nat, i: int, k: int)
    requires l.Valid() && (l.format.MHLSB? || l.format.MHMSB?) && 0 <= i < n && 0 <= k < 8
    ensures 0 < l.stride / 8
    ensures var x, y := i % (l.stride / 8) * 8 + k, i / (l.stride / 8);
            Has(l, n, x, y) && l.Index(x, y) == i && l.Place(x, y) == if l.format.MHMSB? then k else 7 - k
  {
    RowByte(l, i, 8, k);
  }

  /** Horizontal bytes: byte `i` is eight pixels of a row, and pixel `k` from the left is worth two to the power `k` in
      one format and two to the power `7 - k` in the other. */
  lemma HorizontalByte(l: Layout, s: Bytes, i: int)
    requires l.Valid() && (l.format.MHLSB? || l.format.MHMSB?) && 0 <= i < |s|
    ensures 0 < l.stride / 8 && HasRow(l, |s|, i % (l.stride / 8) * 8, i / (l.stride / 8))
    ensures ValueOf(s[i]) ==
            if l.format.MHMSB? then Rightwards(l, s, i % (l.stride / 8) * 8, i / (l.stride / 8))
            else Leftwards(l, s, i % (l.stride / 8) * 8, i / (l.stride / 8))
  {
    hide Has, Layout.Index, Layout.Place, ReadPlace, Ink;
    RowCell(l, |s|, i, 0);
    var x, y := i % (l.stride / 8) * 8, i / (l.stride / 8);
    forall c | x <= c < x + 8
      ensures Has(l, |s|, c, y)
      ensures Ink(l, s, c, y) ==
              ValueOf(ReadPlace(l.format, s[i], if l.format.MHMSB? then c - x else 7 - (c - x)))
    {
      RowCell(l, |s|, i, c - x);
      InkIs(l, s, c, y, i, if l.format.MHMSB? then c - x else 7 - (c - x));
    }
    PlacedIs(l.format, s[i]);
  }

  /** Four-bit bytes: the left pixel counts sixteen times. */
  lemma PairByte(l: Layout, s: Bytes, i: int)
    requires l.Valid() && l.format.GS4HMSB? && 0 <= i < |s|
    ensures 0 < l.stride / 2
    ensures var x, y := i % (l.stride / 2) * 2, i / (l.stride / 2);
            && Has(l, |s|, x, y) && Has(l, |s|, x + 1, y)
            && ValueOf(s[i]) == 16 * Ink(l, s, x, y) + Ink(l, s, x + 1, y)
  {
    RowByte(l, i, 2, 0);
    RowByte(l, i, 2, 1);
    NibbleSum(s[i]);
  }

  lemma WholeByte(l: Layout, s: Bytes, i: int)
    requires l.Valid() && l.format.GS8? && 0 <= i < |s|
    ensures Has(l, |s|, i % l.stride, i / l.stride)
    ensures ValueOf(s[i]) == Ink(l, s, i % l.stride, i / l.stride)
  {
    QuotientIsNatural(i, l.stride);
  }

  /** What is kept of a colour: the remainder that fits, or whether it is zero. */
  lemma StoredIs(f: Format, col: bv32)
    ensures f.GS8? ==> Stored(f, col) as bv32 == col % 256
    ensures f.GS4HMSB? ==> Stored(f, col) as bv32 == col % 16
    ensures !f.GS8? && !f.GS4HMSB? ==> Stored(f, col) == if col == 0 then 0 else 1
  {
  }
}
