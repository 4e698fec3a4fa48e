/** The frame buffer object: single pixels, the per-format rectangle fills and the log of
    changed byte indexes. */
module FrameBuffers {
  import opened Arithmetic
  import opened Basics
  import opened PixelFormat
  import opened PixelGeometry
  import opened Canvas

  datatype Outcome = Ok | ValueError

  /** The log entries after one more pixel write; entries are stored as 16-bit numbers. */
  function LogPixel(cleared: bool, log: seq<nat>, capacity: nat, index: int): seq<nat> {
    var kept := if cleared then log else [];
    if |kept| < capacity then kept + [index % 0x10000] else kept
  }

  /** The cleared flag and the entries of the log. */
  datatype Journal = Journal(cleared: bool, entries: seq<nat>)

  type Points = seq<(int, int)>

  /** The log after a pixel write that is left out when the pixel is not in the frame. */
  function Note(l: Layout, capacity: nat, j: Journal, p: (int, int)): Journal
    requires l.Valid()
  {
    if l.InFrame(p.0, p.1) then Journal(true, LogPixel(j.cleared, j.entries, capacity, l.Index(p.0, p.1))) else j
  }

  /** The log after such writes one after another. */
  function Noted(l: Layout, capacity: nat, j: Journal, points: Points): Journal
    requires l.Valid()
  {
    if points == [] then j
    else Note(l, capacity, Noted(l, capacity, j, points[..|points| - 1]), points[|points| - 1])
  }

  lemma {:induction false} NotedInParts(l: Layout, capacity: nat, j: Journal, a: Points, b: Points)
    requires l.Valid()
    ensures Noted(l, capacity, j, a + b) == Noted(l, capacity, Noted(l, capacity, j, a), b)
    decreases |b|
  {
    hide Note;
    if b == [] {
      assert a + b == a;
    } else {
      assert (a + b)[..|a + b| - 1] == a + b[..|b| - 1];
      NotedInParts(l, capacity, j, a, b[..|b| - 1]);
    }
  }

  /** The bytes of the points in the frame, in order, as the log can hold them. */
  function FrameBytes(l: Layout, points: Points): seq<nat>
    requires l.Valid()
  {
    if points == [] then []
    else
      var (x, y) := points[|points| - 1];
      FrameBytes(l, points[..|points| - 1]) +
      if 0 <= x < l.width && 0 <= y < l.height then [l.Index(x, y) % 65536] else []
  }

  function Front(s: seq<nat>, n: nat): seq<nat> {
    if |s| <= n then s else s[..n]
  }

  /** The log is opened by the first point in the frame, and the bytes of these points are added to it in order as long
      as there is room. */
  lemma {:induction false} NotedIs(l: Layout, capacity: nat, j: Journal, points: Points)
    requires l.Valid() && |j.entries| <= capacity
    ensures Noted(l, capacity, j, points) ==
            if FrameBytes(l, points) == [] then j
            else Journal(true, Front((if j.cleared then j.entries else []) + FrameBytes(l, points), capacity))
  {
    hide Layout.Index;
    if points != [] {
      var init, last := points[..|points| - 1], points[|points| - 1];
      NotedIs(l, capacity, j, init);
      if l.InFrame(last.0, last.1) {
        var kept, i := if j.cleared then j.entries else [], l.Index(last.0, last.1) % 65536;
        assert kept + FrameBytes(l, init) + [i] == kept + FrameBytes(l, points);
      }
    }
  }

  lemma NotedOneMore(l: Layout, capacity: nat, j: Journal, points: Points, p: (int, int))
    requires l.Valid()
    ensures Noted(l, capacity, j, points + [p]) == Note(l, capacity, Noted(l, capacity, j, points), p)
  {
    assert (points + [p])[..|points|] == points;
  }

  lemma NotedNothing(l: Layout, capacity: nat, j: Journal)
    requires l.Valid()
    ensures Noted(l, capacity, j, []) == j
  {
  }

  lemma NotedOne(l: Layout, capacity: nat, j: Journal, p: (int, int))
    requires l.Valid()
    ensures Noted(l, capacity, j, [p]) == Note(l, capacity, j, p)
  {
    assert [p][..0] == [];
  }

  class FrameBuffer {
    const layout: Layout
    const buf: array<bv8>
    const changedIndexes: array<nat>
    var changedCount: nat
    var changedCleared: bool

    ghost predicate Valid()
      reads this
    {
      && layout.Valid()
      && Needed(layout) <= buf.Length
      && changedIndexes.Length == buf.Length
      && changedCount <= changedIndexes.Length
      && buf as object != changedIndexes
    }

    function Log(): seq<nat>
      requires Valid()
      reads this, changedIndexes
    {
      changedIndexes[..changedCount]
    }

    function Logged(): Journal
      requires Valid()
      reads this, changedIndexes
    {
      Journal(changedCleared, Log())
    }

    /** `l` is what the argument checks of the constructor let through. */
    constructor (l: Layout, b: array<bv8>)
      requires l.Valid() && Needed(l) <= b.Length
      ensures Valid() && layout == l && buf == b && fresh(changedIndexes)
      ensures !changedCleared && Log() == []
    {
      layout := l;
      buf := b;
      changedIndexes := new nat[b.Length];
      changedCount := 0;
      changedCleared := false;
    }

    /** Writes one pixel and logs its byte. The four-bit format leaves out the bounds check, and writes any cell of
        the buffer. */
    method SetPixel(x: int, y: int, col: bv32) returns (r: Outcome)
      requires Valid()
      requires layout.format.GS4HMSB? ==> layout.InFrame(x, y) || Has(layout, buf.Length, x, y)
      modifies `changedCount, `changedCleared, buf, changedIndexes
      ensures Valid()
      ensures r.Ok? <==> (0 <= x < layout.width && 0 <= y < layout.height) || layout.format.GS4HMSB?
      ensures r.ValueError? ==>
                unchanged(this) && unchanged(buf) && unchanged(changedIndexes)
      ensures r.Ok? ==> Has(layout, buf.Length, x, y)
      ensures r.Ok? ==> buf[..] == Plot(layout, old(buf[..]), x, y, col)
      ensures r.Ok? ==>
                Logged() == Journal(true, LogPixel(old(changedCleared), old(Log()), buf.Length, layout.Index(x, y)))
    {
      if !layout.format.GS4HMSB? && (x < 0 || x >= layout.width || y < 0 || y >= layout.height) {
        return ValueError;
      }
      if layout.InFrame(x, y) {
        FrameFitsNeeded(layout, x, y);
      }
      if !changedCleared {
        changedCount := 0;
        changedCleared := true;
      }
      var index := layout.Index(x, y);
      if changedCount < changedIndexes.Length {
        changedIndexes[changedCount] := index % 0x10000;
        changedCount := changedCount + 1;
      }
      ghost var before := buf[..];
      buf[index] := WritePlace(layout.format, buf[index], layout.Place(x, y), col);
      assert buf[..] == Plot(layout, before, x, y, col);
      r := Ok;
    }

    function GetPixel(x: int, y: int): (v: bv32)
      requires Valid() && layout.InFrame(x, y)
      reads this, buf
      ensures Has(layout, buf.Length, x, y)
      ensures v == Pixel(layout, buf[..], x, y) as bv32
      ensures Stored(layout.format, v) == Pixel(layout, buf[..], x, y)
    {
      FrameFitsNeeded(layout, x, y);
      StoredOfRead(layout.format, buf[layout.Index(x, y)], layout.Place(x, y));
      ReadPlace(layout.format, buf[layout.Index(x, y)], layout.Place(x, y)) as bv32
    }

    ghost predicate InsideFrame(x: int, y: int, w: int, h: int) {
      0 <= x && 0 <= y && 0 <= w && 0 <= h && x + w <= layout.width && y + h <= layout.height
    }

    /** The statement both one-bit fills repeat: `p` is a bit of byte `b`. */
    method WriteBit(b: int, p: int, col: bv32, ghost x: int, ghost y: int)
      requires Valid() && layout.InFrame(x, y)
      requires layout.format.MVLSB? || layout.format.MHLSB? || layout.format.MHMSB?
      requires b == layout.Index(x, y) && p == layout.Place(x, y)
      modifies buf
      ensures Filled(layout, old(buf[..]), buf[..], x, y, x + 1, y + 1, Stored(layout.format, col))
    {
      hide Filled, Stored, WithBit;
      FrameFitsNeeded(layout, x, y);
      buf[b] := WithBit(buf[b], p, col);
      assert buf[..] == Plot(layout, old(buf[..]), x, y, col);
      PlotFills(layout, old(buf[..]), x, y, col);
    }

    /** Vertical bytes: row by row, one bit in each of `w` consecutive bytes. */
    method FillMvlsb(x: int, y: int, w: int, h: int, col: bv32)
      requires Valid() && layout.format.MVLSB? && InsideFrame(x, y, w, h)
      modifies buf
      ensures Filled(layout, old(buf[..]), buf[..], x, y, x + w, y + h, Stored(layout.format, col))
    {
      hide Filled, Stored;
      ghost var v := Stored(layout.format, col);
      NothingFilled(layout, buf[..], x, y, x + w, y, v);
      var yy, hh := y, h;
      while hh > 0
        invariant 0 <= hh <= h && yy == y + h - hh
        invariant Filled(layout, old(buf[..]), buf[..], x, y, x + w, yy, v)
      {
        hh := hh - 1;
        var b := yy / 8 * layout.stride + x;
        ghost var row := buf[..];
        NothingFilled(layout, row, x, yy, x, yy + 1, v);
        for ww := w downto 0
          invariant b == yy / 8 * layout.stride + x + (w - ww)
          invariant Filled(layout, row, buf[..], x, yy, x + (w - ww), yy + 1, v)
        {
          ghost var xx, before := x + (w - ww) - 1, buf[..];
          WriteBit(b, yy % 8, col, xx, yy);
          JoinColumns(layout, row, before, buf[..], x, xx, xx + 1, yy, yy + 1, v);
          b := b + 1;
        }
        JoinRows(layout, old(buf[..]), row, buf[..], x, x + w, y, yy, yy + 1, v);
        yy := yy + 1;
      }
    }

    /** Horizontal bytes: column by column, one bit in every `advance`-th byte. */
    method FillMonoHoriz(x: int, y: int, w: int, h: int, col: bv32)
      requires Valid() && (layout.format.MHLSB? || layout.format.MHMSB?) && InsideFrame(x, y, w, h)
      modifies buf
      ensures Filled(layout, old(buf[..]), buf[..], x, y, x + w, y + h, Stored(layout.format, col))
    {
      hide Filled, Stored;
      ghost var v := Stored(layout.format, col);
      var reverse := layout.format.MHMSB?;
      var advance := layout.stride / 8;
      NothingFilled(layout, buf[..], x, y, x, y + h, v);
      var xx, ww := x, w;
      while ww > 0
        invariant 0 <= ww <= w && xx == x + w - ww
        invariant Filled(layout, old(buf[..]), buf[..], x, y, xx, y + h, v)
      {
        ww := ww - 1;
        var b := xx / 8 + y * advance;
        var offset := if reverse then xx % 8 else 7 - xx % 8;
        ghost var column := buf[..];
        NothingFilled(layout, column, xx, y, xx + 1, y, v);
        for hh := h downto 0
          invariant b == xx / 8 + (y + (h - hh)) * advance
          invariant Filled(layout, column, buf[..], xx, y, xx + 1, y + (h - hh), v)
        {
          ghost var yy, before := y + (h - hh) - 1, buf[..];
          StrideKeepsRemainder(layout.stride, 8, xx, yy);
          WriteBit(b, offset, col, xx, yy);
          JoinRows(layout, column, before, buf[..], xx, xx + 1, y, yy, yy + 1, v);
          assert (yy + 1) * advance == yy * advance + advance;
          b := b + advance;
        }
        JoinColumns(layout, old(buf[..]), column, buf[..], x, xx, xx + 1, y, y + h, v);
        xx := xx + 1;
      }
    }

    /** `memset(&buf[b], value, n)`. */
    method SetBytes(b: int, value: bv8, n: int)
      requires 0 <= b && 0 <= n && b + n <= buf.Length
      modifies buf
      ensures forall i :: 0 <= i < buf.Length ==> buf[i] == if b <= i < b + n then value else old(buf[i])
    {
      for k := 0 to n
        invariant forall i :: 0 <= i < buf.Length ==> buf[i] == if b <= i < b + k then value else old(buf[i])
      {
        buf[b + k] := value;
      }
    }

    /** Whole bytes: one `memset` per row. */
    method FillGs8(x: int, y: int, w: int, h: int, col: bv32)
      requires Valid() && layout.format.GS8? && InsideFrame(x, y, w, h) && 0 < w
      modifies buf
      ensures Filled(layout, old(buf[..]), buf[..], x, y, x + w, y + h, Stored(layout.format, col))
    {
      hide Filled;
      ghost var v := Stored(layout.format, col);
      NothingFilled(layout, buf[..], x, y, x + w, y, v);
      var pixel := x + y * layout.stride;
      for hh := h downto 0
        invariant pixel == x + (y + (h - hh)) * layout.stride
        invariant Filled(layout, old(buf[..]), buf[..], x, y, x + w, y + (h - hh), v)
      {
        ghost var yy, row := y + (h - hh) - 1, buf[..];
        FrameFitsNeeded(layout, x, yy);
        FrameFitsNeeded(layout, x + w - 1, yy);
        SetBytes(pixel, LowByte(col), w);
        SetBytesFillsGs8(layout, row, buf[..], x, yy, w, v);
        JoinRows(layout, old(buf[..]), row, buf[..], x, x + w, y, yy, yy + 1, v);
        assert (yy + 1) * layout.stride == yy * layout.stride + layout.stride;
        pixel := pixel + layout.stride;
      }
    }

    /** One nibble of byte `b`, from a colour already masked to four bits. */
    method WriteNibble(b: int, low: bool, c: bv8, ghost col: bv32, ghost x: int, ghost y: int)
      requires Valid() && layout.format.GS4HMSB? && layout.InFrame(x, y)
      requires c == LowByte(col) & 0x0f && b == layout.Index(x, y) && low == (x % 2 == 1)
      modifies buf
      ensures Filled(layout, old(buf[..]), buf[..], x, y, x + 1, y + 1, c)
    {
      hide Filled, LowByte;
      FrameFitsNeeded(layout, x, y);
      NibblesAgree(buf[b], LowByte(col));
      if low {
        buf[b] := (buf[b] & 0xf0) | c;
      } else {
        buf[b] := (c << 4) | (buf[b] & 0x0f);
      }
      assert buf[..] == Plot(layout, old(buf[..]), x, y, col);
      PlotFills(layout, old(buf[..]), x, y, col);
    }

    /** The whole bytes in the middle of a row: one `memset`. */
    method SetPairs(b: int, n: int, c: bv8, ghost x: int, ghost y: int)
      requires layout.Valid() && layout.format.GS4HMSB? && 0 <= x && x % 2 == 0 && x + 2 * n <= layout.stride && 0 <= y
      requires b == x / 2 + y * (layout.stride / 2) && 0 <= b && 0 <= n && b + n <= buf.Length && c & 0x0f == c
      modifies buf
      ensures Filled(layout, old(buf[..]), buf[..], x, y, x + n * 2, y + 1, c)
    {
      hide Filled;
      SetBytes(b, (c << 4) | c, n);
      SetBytesFillsGs4(layout, old(buf[..]), buf[..], x, y, n, c);
    }

    /** One row of the four-bit fill: an odd first pixel, whole bytes, an odd last pixel. Returns the
        byte at which the next row starts. */
    method FillGs4Row(start: int, x: int, ghost y: int, w: int, c: bv8, ghost col: bv32) returns (pixelPair: int)
      requires Valid() && layout.format.GS4HMSB? && InsideFrame(x, y, w, 1) && 0 < w
      requires start == layout.Index(x, y) && c == LowByte(col) & 0x0f
      modifies buf
      ensures Filled(layout, old(buf[..]), buf[..], x, y, x + w, y + 1, c)
      ensures pixelPair == start + layout.stride / 2
    {
      hide Filled, LowByte, Needed, Stored;
      var oddX := x % 2 == 1;
      pixelPair := start;
      var ww := w;
      ghost var xx := x;
      NothingFilled(layout, buf[..], x, y, x, y + 1, c);
      RowBytes(layout, x, y, w);
      if oddX && ww > 0 {
        WriteNibble(pixelPair, true, c, col, x, y);
        pixelPair := pixelPair + 1;
        ww := ww - 1;
        xx := x + 1;
      }
      ghost var m := buf[..];
      SetPairs(pixelPair, ww / 2, c, xx, y);
      JoinColumns(layout, old(buf[..]), m, buf[..], x, xx, xx + ww / 2 * 2, y, y + 1, c);
      pixelPair := pixelPair + ww / 2;
      if ww % 2 == 1 {
        m := buf[..];
        WriteNibble(pixelPair, false, c, col, x + w - 1, y);
        JoinColumns(layout, old(buf[..]), m, buf[..], x, x + w - 1, x + w, y, y + 1, c);
        if !oddX {
          pixelPair := pixelPair + 1;
        }
      }
      pixelPair := pixelPair + (layout.stride - w) / 2;
    }

    /** Two pixels per byte: the four cases of odd and even `x` and `w` all step to the next row. */
    method FillGs4(x: int, y: int, w: int, h: int, col: bv32)
      requires Valid() && layout.format.GS4HMSB? && InsideFrame(x, y, w, h) && 0 < w
      modifies buf
      ensures Filled(layout, old(buf[..]), buf[..], x, y, x + w, y + h, Stored(layout.format, col))
    {
      hide Filled, LowByte, Needed;
      var c := LowByte(col) & 0x0f;
      NothingFilled(layout, buf[..], x, y, x + w, y, c);
      var pixelPair := (x + y * layout.stride) / 2;
      for hh := h downto 0
        invariant pixelPair == (x + (y + (h - hh)) * layout.stride) / 2
        invariant Filled(layout, old(buf[..]), buf[..], x, y, x + w, y + (h - hh), c)
      {
        ghost var yy, row := y + (h - hh) - 1, buf[..];
        pixelPair := FillGs4Row(pixelPair, x, yy, w, c, col);
        JoinRows(layout, old(buf[..]), row, buf[..], x, x + w, y, yy, yy + 1, c);
        NextRowByte(layout.stride, x, yy);
      }
    }

    /** The fill of the object's format, on a rectangle already inside the frame. */
    method FillInside(x: int, y: int, w: int, h: int, col: bv32)
      requires Valid() && InsideFrame(x, y, w, h) && 0 < w
      modifies buf
      ensures Filled(layout, old(buf[..]), buf[..], x, y, x + w, y + h, Stored(layout.format, col))
    {
      hide Filled, Stored;
      match layout.format
      case MVLSB => FillMvlsb(x, y, w, h, col);
      case GS4HMSB => FillGs4(x, y, w, h, col);
      case GS8 => FillGs8(x, y, w, h, col);
      case MHLSB => FillMonoHoriz(x, y, w, h, col);
      case MHMSB => FillMonoHoriz(x, y, w, h, col);
    }

    /** The clipped fill: any integers, inside the frame or not. */
    method FillRect(x: int, y: int, w: int, h: int, col: bv32)
      requires Valid()
      modifies buf
      ensures Valid()
      ensures Filled(layout, old(buf[..]), buf[..],
                     Max(x, 0), Max(y, 0), Min(layout.width, x + w), Min(layout.height, y + h),
                     Stored(layout.format, col))
      ensures forall i :: 0 <= i < buf.Length && Needed(layout) <= i ==> buf[i] == old(buf[i])
      ensures Logged() == old(Logged())
    {
      hide Filled, Stored, Needed;
      ghost var x0, y0 := Max(x, 0), Max(y, 0);
      ghost var x1, y1 := Min(layout.width, x + w), Min(layout.height, y + h);
      if h < 1 || w < 1 || x + w <= 0 || y + h <= 0 || y >= layout.height || x >= layout.width {
        NothingFilled(layout, buf[..], x0, y0, x1, y1, Stored(layout.format, col));
        return;
      }
      var xend := Min(layout.width, x + w);
      var yend := Min(layout.height, y + h);
      FillInside(Max(x, 0), Max(y, 0), xend - Max(x, 0), yend - Max(y, 0), col);
      TailIsKept(layout, old(buf[..]), buf[..], x0, y0, x1, y1, col);
    }

    /** Paints the whole frame and starts a new log. */
    method Fill(col: bv32)
      requires Valid()
      modifies `changedCount, `changedCleared, buf
      ensures Valid() && Log() == [] && !changedCleared
      ensures Filled(layout, old(buf[..]), buf[..], 0, 0, layout.width, layout.height, Stored(layout.format, col))
    {
      changedCount := 0;
      changedCleared := false;
      FillInside(0, 0, layout.width, layout.height, col);
    }

    /** The list that `get_changes` returns. */
    method GetChanges() returns (list: seq<nat>)
      requires Valid()
      ensures list == Log()
    {
      list := [];
      for i := 0 to changedCount
        invariant list == changedIndexes[..i]
      {
        list := list + [changedIndexes[i]];
      }
    }
  }

  datatype Creation = Created(fb: FrameBuffer) | Refused

  /** Makes a frame buffer over the bytes of the caller, or refuses the arguments. */
  method Make(format: Format, width: int, height: int, stride: int, b: array<bv8>) returns (r: Creation)
    ensures r.Refused? <==> MakeLayout(format, width, height, stride, b.Length).Rejected?
    ensures r.Created? ==>
              && fresh(r.fb) && r.fb.Valid() && r.fb.buf == b && r.fb.Log() == [] && !r.fb.changedCleared
              && r.fb.layout == MakeLayout(format, width, height, stride, b.Length).layout
  {
    hide RoundedLayout;
    var made := MakeLayout(format, width, height, stride, b.Length);
    match made
    case Rejected =>
      r := Refused;
    case Made(l) =>
      StrideIsLeast(format, width, height, stride, b.Length);
      var fb := new FrameBuffer(l, b);
      r := Created(fb);
  }

  /** `t` is `s` with `n` bytes from `b` on set to `value`. */
  ghost predicate BytesSet(s: Bytes, t: Bytes, b: int, value: bv8, n: int) {
    |t| == |s| && forall i :: 0 <= i < |s| ==> t[i] == if b <= i < b + n then value else s[i]
  }

  lemma SetBytesFillsGs8(l: Layout, s: Bytes, t: Bytes, x: int, y: int, w: int, v: bv8)
    requires l.Valid() && l.format.GS8? && 0 <= x && 0 <= w && x + w <= l.stride && 0 <= y
    requires BytesSet(s, t, x + y * l.stride, v, w)
    ensures Filled(l, s, t, x, y, x + w, y + 1, v)
  {
    forall x', y' | Has(l, |s|, x', y')
      ensures Pixel(l, t, x', y') == if x <= x' < x + w && y <= y' < y + 1 then v else Pixel(l, s, x', y')
    {
      var i := x' + y' * l.stride;
      if x + y * l.stride <= i < x + y * l.stride + w {
        QuotientIsUnique(l.stride, x', y', i - y * l.stride, y);
      }
    }
  }

  lemma NextRowByte(stride: int, x: int, y: int)
    requires 0 < stride && stride % 2 == 0 && 0 <= x && 0 <= y
    ensures (x + (y + 1) * stride) / 2 == (x + y * stride) / 2 + stride / 2
  {
    assert x + (y + 1) * stride == x + y * stride + 2 * (stride / 2);
  }

  lemma NibblesAgree(b: bv8, c: bv8)
    ensures (b & 0xf0) | (c & 0x0f) == (c & 0x0f) | (b & 0xf0)
    ensures ((c & 0x0f) << 4) | (b & 0x0f) == (c << 4) | (b & 0x0f)
  {
  }

  lemma PairOfNibbles(c: bv8)
    requires c & 0x0f == c
    ensures ((c << 4) | c) & 0x0f == c && ((c << 4) | c) >> 4 == c
  {
  }

  lemma RowBytes(l: Layout, x: int, y: int, w: int)
    requires l.Valid() && l.format.GS4HMSB? && 0 <= x && 0 < w && x + w <= l.width && 0 <= y < l.height
    ensures l.Index(x, y) == x / 2 + y * (l.stride / 2)
    ensures l.Index(x + w - 1, y) == (x + w - 1) / 2 + y * (l.stride / 2)
    ensures 0 <= l.Index(x, y) && l.Index(x + w - 1, y) < Needed(l)
  {
    StrideKeepsRemainder(l.stride, 2, x, y);
    StrideKeepsRemainder(l.stride, 2, x + w - 1, y);
    FrameFitsNeeded(l, x, y);
    FrameFitsNeeded(l, x + w - 1, y);
  }

  lemma SetBytesFillsGs4(l: Layout, s: Bytes, t: Bytes, x: int, y: int, n: int, c: bv8)
    requires l.Valid() && l.format.GS4HMSB? && 0 <= x && x % 2 == 0 && 0 <= n && x + 2 * n <= l.stride && 0 <= y
    requires c & 0x0f == c
    requires BytesSet(s, t, x / 2 + y * (l.stride / 2), (c << 4) | c, n)
    ensures Filled(l, s, t, x, y, x + n * 2, y + 1, c)
  {
    PairOfNibbles(c);
    forall x', y' | Has(l, |s|, x', y')
      ensures Pixel(l, t, x', y') == if x <= x' < x + n * 2 && y <= y' < y + 1 then c else Pixel(l, s, x', y')
    {
      var b, half := x / 2 + y * (l.stride / 2), l.stride / 2;
      StrideKeepsRemainder(l.stride, 2, x', y');
      if b <= l.Index(x', y') < b + n {
        QuotientIsUnique(half, x' / 2, y', l.Index(x', y') - y * half, y);
      }
    }
  }


  /** No byte at or beyond the size checked at construction is touched. */
  lemma TailIsKept(l: Layout, s: Bytes, t: Bytes, x0: int, y0: int, x1: int, y1: int, col: bv32)
    requires l.Valid() && Needed(l) <= |s|
    requires 0 <= x0 && 0 <= y0 && x1 <= l.width && y1 <= l.height
    requires Filled(l, s, t, x0, y0, x1, y1, Stored(l.format, col))
    ensures |t| == |s| && forall i :: 0 <= i < |s| && Needed(l) <= i ==> t[i] == s[i]
  {
    hide Needed;
    forall i | 0 <= i < |s| && Needed(l) <= i
      ensures t[i] == s[i]
    {
      forall p | 0 <= p < PlacesPerByte(l.format)
        ensures ReadPlace(l.format, s[i], p) == ReadPlace(l.format, t[i], p)
      {
        EveryPlaceIsACell(l, i, p);
        var (x, y) := CellAt(l, i, p);
        if l.InFrame(x, y) {
          FrameFitsNeeded(l, x, y);
        }
        assert Has(l, |s|, x, y);
      }
      assert SamePlaces(l.format, s[i], t[i]);
      PlacesDetermineByte(l.format, s[i], t[i]);
    }
  }
}
