/** How the frame buffer packs pixels into bytes: the layout checked at construction,
    the byte index and the place inside that byte of every cell, and the bit operations
    that read and write one cell. */
module PixelFormat {
  import opened Arithmetic

  datatype Format = MVLSB | MHLSB | MHMSB | GS4HMSB | GS8

  /** `stride` is the value stored in the object, after rounding. */
  datatype Layout = Layout(format: Format, width: int, height: int, stride: int) {

    ghost predicate Valid() {
      && 1 <= width <= 0xffff && 1 <= height <= 0xffff
      && width <= stride
      && (format.MHLSB? || format.MHMSB? ==> stride % 8 == 0)
      && (format.GS4HMSB? ==> stride % 2 == 0)
    }

    predicate InFrame(x: int, y: int) {
      0 <= x < width && 0 <= y < height
    }

    /** A cell is a place for a pixel in the byte buffer, in the frame or in the padding
        that the stride (or a last partial band of eight rows) leaves beside it. */
    predicate IsCell(x: int, y: int) {
      0 <= x < stride && 0 <= y
    }

    function Index(x: int, y: int): int
      requires IsCell(x, y)
    {
      match format
      case MVLSB => y / 8 * stride + x
      case MHLSB => (x + y * stride) / 8
      case MHMSB => (x + y * stride) / 8
      case GS4HMSB => (x + y * stride) / 2
      case GS8 => x + y * stride
    }

    /** The place of the cell inside its byte. */
    function Place(x: int, y: int): (p: int)
      ensures 0 <= p < 8
    {
      match format
      case MVLSB => y % 8
      case MHLSB => 7 - x % 8
      case MHMSB => x % 8
      case GS4HMSB => x % 2
      case GS8 => 0
    }
  }

  datatype MakeResult = Made(layout: Layout) | Rejected

  /** The number of bytes that construction demands of the buffer. */
  function Needed(l: Layout): int {
    match l.format
    case MVLSB => ((RoundUp(l.height, 8) - 8) * l.stride + 8 * l.width) / 8
    case MHLSB => ((l.height - 1) * l.stride + RoundUp(l.width, 8)) / 8
    case MHMSB => ((l.height - 1) * l.stride + RoundUp(l.width, 8)) / 8
    case GS4HMSB => ((l.height - 1) * l.stride + RoundUp(l.width, 2)) * 4 / 8
    case GS8 => ((l.height - 1) * l.stride + l.width) * 8 / 8
  }

  function RoundedLayout(format: Format, width: int, height: int, stride: int): Layout {
    Layout(format, width, height,
           match format
           case MVLSB => stride
           case MHLSB => RoundUp(stride, 8)
           case MHMSB => RoundUp(stride, 8)
           case GS4HMSB => RoundUp(stride, 2)
           case GS8 => stride)
  }

  /** The argument checks and stride rounding of the constructor. */
  function MakeLayout(format: Format, width: int, height: int, stride: int, bufLen: nat): MakeResult {
    if width < 1 || height < 1 || width > 0xffff || height > 0xffff || stride > 0xffff || stride < width then
      Rejected
    else
      var l := RoundedLayout(format, width, height, stride);
      if Needed(l) > bufLen then Rejected else Made(l)
  }

  // ---------- bits of one byte ----------

  /** A shift count below eight, as a byte. */
  function Count(k: int): bv8
    requires 0 <= k < 8
  {
    if k == 0 then 0 else if k == 1 then 1 else if k == 2 then 2 else if k == 3 then 3
    else if k == 4 then 4 else if k == 5 then 5 else if k == 6 then 6 else 7
  }

  function LowByte(col: bv32): bv8 {
    (col & 0xff) as bv8
  }

  function BitAt(b: bv8, p: int): bv8
    requires 0 <= p < 8
  {
    (b >> Count(p)) & 1
  }

  function ReadPlace(f: Format, b: bv8, p: int): bv8
    requires 0 <= p < 8
  {
    match f
    case GS8 => b
    case GS4HMSB => if p == 1 then b & 0x0f else b >> 4
    case _ => BitAt(b, p)
  }

  function WithBit(b: bv8, p: int, col: bv32): bv8
    requires 0 <= p < 8
  {
    (b & !(1 << Count(p))) | (if col != 0 then 1 << Count(p) else 0)
  }

  function WritePlace(f: Format, b: bv8, p: int, col: bv32): bv8
    requires 0 <= p < 8
  {
    match f
    case GS8 => LowByte(col)
    case GS4HMSB => if p == 1 then (LowByte(col) & 0x0f) | (b & 0xf0) else (LowByte(col) << 4) | (b & 0x0f)
    case _ => WithBit(b, p, col)
  }

  /** What remains of a colour once it is stored in one cell. */
  function Stored(f: Format, col: bv32): bv8 {
    match f
    case GS8 => LowByte(col)
    case GS4HMSB => LowByte(col) & 0x0f
    case _ => if col != 0 then 1 else 0
  }

  lemma MonoReadBack(b: bv8, s: bv8, t: bv8, on: bool)
    requires s < 8 && t < 8
    ensures (((b & !(1 << s)) | (if on then 1 << s else 0)) >> t) & 1 ==
            if s == t then (if on then 1 else 0) else (b >> t) & 1
  {
  }

  lemma NibbleReadBack(b: bv8, c: bv8)
    ensures ((c & 0x0f) | (b & 0xf0)) & 0x0f == c & 0x0f
    ensures ((c & 0x0f) | (b & 0xf0)) >> 4 == b >> 4
    ensures ((c << 4) | (b & 0x0f)) >> 4 == c & 0x0f
    ensures ((c << 4) | (b & 0x0f)) & 0x0f == b & 0x0f
  {
  }

  lemma CountIsInjective(p: int, q: int)
    requires 0 <= p < 8 && 0 <= q < 8
    ensures Count(p) < 8 && Count(q) < 8
    ensures Count(p) == Count(q) <==> p == q
  {
  }

  lemma BitReadBack(b: bv8, p: int, q: int, col: bv32)
    requires 0 <= p < 8 && 0 <= q < 8
    ensures BitAt(WithBit(b, p, col), q) == if p == q then (if col != 0 then 1 else 0) else BitAt(b, q)
  {
    hide Count;
    CountIsInjective(p, q);
    MonoReadBack(b, Count(p), Count(q), col != 0);
  }

  /** The whole meaning of the bit operations: a cell reads back what was stored in it,
      and every other cell of the byte is left alone. */
  lemma ReadAfterWrite(f: Format, b: bv8, p: int, q: int, col: bv32)
    requires 0 <= p < 8 && 0 <= q < 8
    requires f.GS8? ==> p == q == 0
    requires f.GS4HMSB? ==> p < 2 && q < 2
    ensures ReadPlace(f, WritePlace(f, b, p, col), q) ==
            if p == q then Stored(f, col) else ReadPlace(f, b, q)
  {
    hide BitAt, WithBit, LowByte;
    NibbleReadBack(b, LowByte(col));
    BitReadBack(b, p, q, col);
  }

  lemma StoredOfRead(f: Format, b: bv8, p: int)
    requires 0 <= p < 8
    ensures Stored(f, ReadPlace(f, b, p) as bv32) == ReadPlace(f, b, p)
  {
  }
}
