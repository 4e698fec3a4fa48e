/** The cells of a layout and the places of its bytes correspond one to one, and the cells of
    the frame lie in the bytes that construction asked for. */
module PixelGeometry {
  import opened Arithmetic
  import opened PixelFormat

  function PlacesPerByte(f: Format): int {
    match f
    case GS8 => 1
    case GS4HMSB => 2
    case _ => 8
  }

  lemma StrideKeepsRemainder(s: int, m: int, x: int, y: int)
    requires 0 < m && s % m == 0
    ensures (x + y * s) % m == x % m
    ensures (x + y * s) / m == x / m + y * (s / m)
  {
    var k := s / m;
    assert s == k * m;
    assert y * s == (y * k) * m;
    assert x + y * s == x % m + (x / m + y * k) * m;
    QuotientIsUnique(m, x % m, x / m + y * k, (x + y * s) % m, (x + y * s) / m);
  }

  lemma RowCellsAreDistinct(s: int, m: int, x: int, y: int, x': int, y': int)
    requires 0 < m && s % m == 0 && 0 <= x < s && 0 <= x' < s
    requires (x + y * s) / m == (x' + y' * s) / m && x % m == x' % m
    ensures x == x' && y == y'
  {
    StrideKeepsRemainder(s, m, x, y);
    StrideKeepsRemainder(s, m, x', y');
    assert x + y * s == x' + y' * s;
    QuotientIsUnique(s, x, y, x', y');
  }

  /** Two cells that share a byte and a place are the same cell. */
  lemma CellsAreDistinct(l: Layout, x: int, y: int, x': int, y': int)
    requires l.Valid() && l.IsCell(x, y) && l.IsCell(x', y')
    requires l.Index(x, y) == l.Index(x', y') && l.Place(x, y) == l.Place(x', y')
    ensures x == x' && y == y'
  {
    match l.format
    case MVLSB => QuotientIsUnique(l.stride, x, y / 8, x', y' / 8);
    case GS8 => QuotientIsUnique(l.stride, x, y, x', y');
    case MHLSB => RowCellsAreDistinct(l.stride, 8, x, y, x', y');
    case MHMSB => RowCellsAreDistinct(l.stride, 8, x, y, x', y');
    case GS4HMSB => RowCellsAreDistinct(l.stride, 2, x, y, x', y');
  }

  /** The cell kept at place `p` of byte `i`. */
  function CellAt(l: Layout, i: int, p: int): (int, int)
    requires 0 < l.stride
  {
    match l.format
    case MVLSB => (i % l.stride, i / l.stride * 8 + p)
    case MHLSB => ((i * 8 + (7 - p)) % l.stride, (i * 8 + (7 - p)) / l.stride)
    case MHMSB => ((i * 8 + p) % l.stride, (i * 8 + p) / l.stride)
    case GS4HMSB => ((i * 2 + p) % l.stride, (i * 2 + p) / l.stride)
    case GS8 => (i % l.stride, i / l.stride)
  }

  lemma QuotientIsNatural(n: int, s: int)
    requires 0 <= n && 0 < s
    ensures 0 <= n / s && n == n % s + n / s * s && 0 <= n % s < s
  {
  }

  lemma EveryPlaceIsACell(l: Layout, i: int, p: int)
    requires l.Valid() && 0 <= i && 0 <= p < PlacesPerByte(l.format)
    ensures var (x, y) := CellAt(l, i, p);
            l.IsCell(x, y) && l.Index(x, y) == i && l.Place(x, y) == p
  {
    var (x, y) := CellAt(l, i, p);
    match l.format
    case MVLSB => QuotientIsNatural(i, l.stride);
    case GS8 => QuotientIsNatural(i, l.stride);
    case MHLSB =>
      QuotientIsNatural(i * 8 + (7 - p), l.stride);
      StrideKeepsRemainder(l.stride, 8, x, y);
    case MHMSB =>
      QuotientIsNatural(i * 8 + p, l.stride);
      StrideKeepsRemainder(l.stride, 8, x, y);
    case GS4HMSB =>
      QuotientIsNatural(i * 2 + p, l.stride);
      StrideKeepsRemainder(l.stride, 2, x, y);
  }

  lemma RowsFit(s: int, y: int, h: int, x: int, w: int)
    requires 0 <= y < h && 0 <= x < w && 0 <= s
    ensures 0 <= y * s + x < (h - 1) * s + w
  {
    var above := h - 1 - y;
    assert above * s >= 0;
    assert (h - 1) * s == above * s + y * s;
  }

  lemma NeededForRows(l: Layout, m: int)
    requires l.Valid() && 0 < m && l.stride % m == 0
    ensures ((l.height - 1) * l.stride + RoundUp(l.width, m)) / m ==
            (l.height - 1) * (l.stride / m) + (l.width + m - 1) / m
  {
    StrideKeepsRemainder(l.stride, m, RoundUp(l.width, m), l.height - 1);
    QuotientIsUnique(m, 0, (l.width + m - 1) / m, RoundUp(l.width, m) % m, RoundUp(l.width, m) / m);
  }

  lemma FrameFitsRows(l: Layout, m: int, x: int, y: int)
    requires l.Valid() && 0 < m && l.stride % m == 0 && l.InFrame(x, y)
    ensures 0 <= (x + y * l.stride) / m < ((l.height - 1) * l.stride + RoundUp(l.width, m)) / m
  {
    NeededForRows(l, m);
    StrideKeepsRemainder(l.stride, m, x, y);
    LastColumn(x, l.width, m);
    RowsFit(l.stride / m, y, l.height, x / m, (l.width + m - 1) / m);
  }

  lemma LastColumn(x: int, w: int, m: int)
    requires 0 <= x < w && 0 < m
    ensures 0 <= x / m < (w + m - 1) / m
  {
    var q := (w + m - 1) / m;
    assert w + m - 1 == q * m + (w + m - 1) % m;
    assert x == x / m * m + x % m;
    assert (q - x / m) * m == q * m - x / m * m;
    PositiveFactor(q - x / m, m);
  }

  lemma FrameFitsBands(l: Layout, x: int, y: int)
    requires l.Valid() && l.InFrame(x, y)
    ensures 0 <= y / 8 * l.stride + x < ((RoundUp(l.height, 8) - 8) * l.stride + 8 * l.width) / 8
  {
    var bands := (l.height + 7) / 8;
    RowsFit(l.stride, y / 8, bands, x, l.width);
    assert (bands * 8 - 8) * l.stride == 8 * ((bands - 1) * l.stride);
  }

  /** The construction check is enough: every pixel of the frame is in a byte below `Needed`. */
  lemma FrameFitsNeeded(l: Layout, x: int, y: int)
    requires l.Valid() && l.InFrame(x, y)
    ensures l.IsCell(x, y) && 0 <= l.Index(x, y) < Needed(l)
  {
    match l.format
    case MVLSB => FrameFitsBands(l, x, y);
    case GS4HMSB => FrameFitsRows(l, 2, x, y);
    case GS8 => RowsFit(l.stride, y, l.height, x, l.width);
    case MHLSB => FrameFitsRows(l, 8, x, y);
    case MHMSB => FrameFitsRows(l, 8, x, y);
  }

  lemma NextMultiple(w: int)
    requires 1 <= w
    ensures (w + 7) / 8 == (w - 1) / 8 + 1 && (w + 1) / 2 == (w - 1) / 2 + 1
  {
  }

  /** The construction check asks for no byte too many: the last one demanded holds the last pixel. */
  lemma NeededIsExact(l: Layout)
    requires l.Valid()
    ensures Needed(l) == l.Index(l.width - 1, l.height - 1) + 1
  {
    var x, y := l.width - 1, l.height - 1;
    NextMultiple(l.width);
    NextMultiple(l.height);
    match l.format
    case MVLSB => assert (RoundUp(l.height, 8) - 8) * l.stride == 8 * (y / 8 * l.stride);
    case GS4HMSB => NeededForRows(l, 2); StrideKeepsRemainder(l.stride, 2, x, y);
    case GS8 =>
    case MHLSB => NeededForRows(l, 8); StrideKeepsRemainder(l.stride, 8, x, y);
    case MHMSB => NeededForRows(l, 8); StrideKeepsRemainder(l.stride, 8, x, y);
  }

  /** Whole bytes in a row: the stride that construction stores is the least that is large enough. */
  lemma StrideIsLeast(format: Format, width: int, height: int, stride: int, bufLen: nat)
    requires MakeLayout(format, width, height, stride, bufLen).Made?
    ensures var l := MakeLayout(format, width, height, stride, bufLen).layout;
            && l.Valid() && l.format == format && l.width == width && l.height == height && stride <= l.stride
            && forall s :: stride <= s < l.stride ==> !l.(stride := s).Valid()
  {
    hide Needed;
    var l := MakeLayout(format, width, height, stride, bufLen).layout;
    RoundUpIsLeast(stride, 8);
    RoundUpIsLeast(stride, 2);
    forall s | stride <= s < l.stride
      ensures !l.(stride := s).Valid()
    {
      assert s % 8 != 0 || s % 2 != 0;
    }
  }

  lemma RoundUpIsLeast(n: int, m: int)
    requires m == 2 || m == 8
    ensures n <= RoundUp(n, m) < n + m && RoundUp(n, m) % m == 0
    ensures forall s :: n <= s < RoundUp(n, m) ==> s % m != 0
  {
  }

  /** Construction succeeds exactly when the sizes are in range and every pixel of the frame would be in the
      buffer. */
  lemma MakeAccepts(format: Format, width: int, height: int, stride: int, bufLen: nat)
    ensures MakeLayout(format, width, height, stride, bufLen).Made? <==>
            && 1 <= width <= 0xffff && 1 <= height <= 0xffff && width <= stride <= 0xffff
            && forall x, y :: 0 <= x < width && 0 <= y < height ==>
                 RoundedLayout(format, width, height, stride).Index(x, y) < bufLen
  {
    hide Needed, RoundUp;
    if 1 <= width <= 0xffff && 1 <= height <= 0xffff && width <= stride <= 0xffff {
      var l := RoundedLayout(format, width, height, stride);
      RoundUpIsLeast(stride, 8);
      RoundUpIsLeast(stride, 2);
      NeededIsExact(l);
      forall x, y | 0 <= x < width && 0 <= y < height
        ensures l.Index(x, y) < Needed(l)
      {
        FrameFitsNeeded(l, x, y);
      }
    }
  }
}
