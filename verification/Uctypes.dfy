/** Layout of uctypes structures: the size computed for a descriptor and the addresses that the accessors
    compute from it. */
module Uctypes {
  import opened Arithmetic
  import opened Basics

  /** A descriptor: a dictionary of fields, a tuple, or a bare number. */
  datatype Desc = Dict(fields: seq<Field>) | Tuple(agg: Agg) | Number(code: int)

  datatype Field = Field(name: string, value: FieldDesc)

  datatype FieldDesc = Scalar(code: int) | Aggregate(agg: Agg)

  /** The tuples of an aggregate type; the head holds the kind and the offset. */
  datatype Agg = Pair(head: int, second: Desc) | Triple(head: int, count: int, element: Desc) | WrongLength

  const STRUCT := 0
  const PTR := 1
  const ARRAY := 2
  const BFUINT8 := 8
  const BFINT32 := 13
  const FLOAT32 := 14
  const ADDRESS_SIZE := 4

  // A 31-bit small integer: the type is in its top bits, the offset or count below.
  function ValType(code: int): int { code / 0x800_0000 % 16 }
  function ValOffset(code: int): int { code % 0x800_0000 }
  function AggType(head: int): int { head / 0x2000_0000 % 4 }
  function AggOffset(head: int): int { head % 0x2000_0000 }

  predicate IsBitField(t: int) { BFUINT8 <= t <= BFINT32 }

  /** The byte offset of a scalar field. */
  function FieldOffset(code: int): nat {
    if IsBitField(ValType(code)) then ValOffset(code) % 0x2_0000 else ValOffset(code)
  }

  predicate IsAlignment(m: int) { m == 0 || m == 1 || m == 2 || m == 4 || m == 8 }

  function ScalarSize(t: int): (s: int)
    requires 0 <= t < 16
    ensures s == 1 || s == 2 || s == 4 || s == 8
  {
    if t == FLOAT32 then 4
    else
      var k := t % 8 / 2;
      if k == 0 then 1 else if k == 1 then 2 else if k == 2 then 4 else 8
  }

  /** Rounding up by masking, which gives zero when no field has been seen. */
  function Aligned(total: int, m: int): int {
    if m <= 0 then 0 else RoundUp(total, m)
  }

  /** A size, and the size of the largest scalar met so far. */
  datatype Sized = Sized(size: int, max: int)

  function AggSize(a: Agg, native: bool, max: int): Option<Sized>
    decreases a, 0
  {
    match a
    case WrongLength => None
    case Pair(head, second) =>
      if AggType(head) == STRUCT then StructSize(second, native, max)
      else if AggType(head) == PTR then Some(Sized(ADDRESS_SIZE, Max(max, ADDRESS_SIZE)))
      else if AggType(head) == ARRAY && second.Number? then
        var s := ScalarSize(ValType(second.code));
        Some(Sized(s * ValOffset(second.code), Max(max, s)))
      else None
    case Triple(head, count, element) =>
      if AggType(head) != ARRAY then None
      else match StructSize(element, native, max)
        case None => None
        case Some(s) => Some(Sized(s.size * ValOffset(count), s.max))
  }

  function StructSize(d: Desc, native: bool, max: int): Option<Sized>
    decreases d, 1
  {
    match d
    case Number(_) => None
    case Tuple(a) => AggSize(a, native, max)
    case Dict(fields) =>
      match FieldsSize(fields, native, max)
      case None => None
      case Some(s) => Some(Sized(if native then Aligned(s.size, s.max) else s.size, s.max))
  }

  function FieldSize(f: FieldDesc, native: bool, max: int): Option<Sized>
    decreases f, 1
  {
    match f
    case Scalar(code) =>
      var s := ScalarSize(ValType(code));
      Some(Sized(FieldOffset(code) + s, Max(max, s)))
    case Aggregate(a) =>
      match AggSize(a, native, max)
      case None => None
      case Some(s) => Some(Sized((if a.WrongLength? then 0 else AggOffset(a.head)) + s.size, s.max))
  }

  /** The furthest end of the fields, taken in the order of the dictionary. */
  function FieldsSize(fields: seq<Field>, native: bool, max: int): Option<Sized>
    decreases fields, 0
  {
    if fields == [] then Some(Sized(0, max))
    else match FieldsSize(fields[..|fields| - 1], native, max)
      case None => None
      case Some(before) =>
        match FieldSize(fields[|fields| - 1].value, native, before.max)
        case None => None
        case Some(last) => Some(Sized(Max(before.size, last.size), last.max))
  }

  // ---------- what the accessors reach ----------

  datatype Step = Attr(name: string) | Index(i: nat)

  /** The bytes from `at` on, `size` of them. */
  datatype Span = Span(at: int, size: int)

  function Shift(delta: int, s: Option<Span>): Option<Span> {
    if s.None? then None else Some(Span(delta + s.value.at, s.value.size))
  }

  /** The bytes read or written by an access path that starts at a structure with descriptor `d`, relative to
      its address; `None` when the path is not an access: a wrong name, an index out of range, a path that
      stops at a structure or goes through a pointer. */
  function Reach(d: Desc, native: bool, path: seq<Step>): Option<Span>
    decreases d, 1
  {
    if path == [] then None
    else match d
      case Number(_) => None
      case Tuple(a) => ReachAgg(a, native, path)
      case Dict(fields) => if path[0].Attr? then ReachField(fields, path[0].name, native, path[1..]) else None
  }

  function ReachField(fields: seq<Field>, name: string, native: bool, path: seq<Step>): Option<Span>
    decreases fields, 0
  {
    if fields == [] then None
    else
      var last := fields[|fields| - 1];
      if last.name != name then ReachField(fields[..|fields| - 1], name, native, path)
      else match last.value
        case Scalar(code) =>
          if path == [] then Some(Span(FieldOffset(code), ScalarSize(ValType(code)))) else None
        case Aggregate(a) =>
          if a.WrongLength? then None else Shift(AggOffset(a.head), ReachMember(a, native, path))
  }

  /** From an aggregate field: into a structure by name, into an array by index, all of an array of bytes at
      once, and the pointer itself. */
  function ReachMember(a: Agg, native: bool, path: seq<Step>): Option<Span>
    decreases a, 2
  {
    if a.WrongLength? then None
    else if AggType(a.head) == STRUCT then
      if a.Pair? then Reach(a.second, native, path) else None
    else if path != [] then ReachAgg(a, native, path)
    else if a.Pair? && AggType(a.head) == PTR then Some(Span(0, ADDRESS_SIZE))
    else if a.Pair? && AggType(a.head) == ARRAY && a.second.Number? && ValType(a.second.code) == 0 then
      Some(Span(0, ValOffset(a.second.code)))
    else None
  }

  function ReachAgg(a: Agg, native: bool, path: seq<Step>): Option<Span>
    requires path != []
    decreases a, 0
  {
    if a.WrongLength? || AggType(a.head) != ARRAY || !path[0].Index? then None
    else if a.Pair? then
      if a.second.Number? && path[0].i < ValOffset(a.second.code) && path[1..] == [] then
        var s := ScalarSize(ValType(a.second.code));
        Some(Span(s * path[0].i, s))
      else None
    else if path[0].i >= ValOffset(a.count) then None
    else match StructSize(a.element, native, 0)
      case None => None
      case Some(stride) => Shift(stride.size * path[0].i, Reach(a.element, native, path[1..]))
  }

  // ---------- the size grows with the largest scalar met before ----------

  /** Starting from a larger maximum gives no smaller size, and the same descriptors are accepted. */
  ghost predicate Grows(o: Option<Sized>, o': Option<Sized>, m: int, m': int) {
    && (o.None? <==> o'.None?)
    && (o.Some? ==>
          && 0 <= o.value.size <= o'.value.size
          && IsAlignment(o.value.max) && IsAlignment(o'.value.max)
          && m <= o.value.max <= o'.value.max && m' <= o'.value.max)
  }

  lemma AlignedGrows(t: int, m: int, t': int, m': int)
    requires 0 <= t <= t' && IsAlignment(m) && IsAlignment(m') && m <= m'
    ensures 0 <= Aligned(t, m) <= Aligned(t', m')
    ensures 0 < m ==> t <= Aligned(t, m)
  {
    AlignedOfMore(t, t', m);
    AlignedIsCoarser(t', m, m');
    hide Aligned;
  }

  /** Rounding up gives the least multiple that is large enough. */
  lemma LeastMultiple(t: int, m: int, j: int)
    requires 0 < m
    ensures t <= RoundUp(t, m) == m * ((t + m - 1) / m)
    ensures t <= m * j ==> RoundUp(t, m) <= m * j
  {
    var n, k := t + m - 1, (t + m - 1) / m;
    DivMod(n, m);
    assert k * m == m * k;
    if t <= m * j {
      assert m * k - m * j < m;
      NoMore(m, k, j);
    }
  }

  lemma DivMod(n: int, m: int)
    requires 0 < m
    ensures n == m * (n / m) + n % m && 0 <= n % m < m
  {
  }

  lemma NoMore(m: int, k: int, j: int)
    requires 0 < m && m * k - m * j < m
    ensures m * k <= m * j
  {
    if j < k {
      AtLeastOne(k - j, m);
    } else {
      assert m * (j - k) >= 0;
    }
  }

  lemma AlignedOfMore(t: int, t': int, m: int)
    requires 0 <= t <= t' && IsAlignment(m)
    ensures 0 <= Aligned(t, m) <= Aligned(t', m)
    ensures 0 < m ==> t <= Aligned(t, m)
  {
    hide RoundUp;
    if 0 < m {
      LeastMultiple(t', m, 0);
      LeastMultiple(t, m, (t' + m - 1) / m);
    }
  }

  lemma AlignedIsCoarser(t: int, m: int, m': int)
    requires 0 <= t && IsAlignment(m) && IsAlignment(m') && m <= m'
    ensures Aligned(t, m) <= Aligned(t, m')
  {
    hide RoundUp;
    if 0 < m {
      MultipleIsCoarser(t, m, if m == m' then 1 else if m' == 2 * m then 2 else if m' == 4 * m then 4 else 8);
    } else if 0 < m' {
      LeastMultiple(t, m', 0);
    }
  }

  lemma MultipleIsCoarser(t: int, m: int, c: int)
    requires 0 < m && 0 < c
    ensures 0 < m * c && RoundUp(t, m) <= RoundUp(t, m * c)
  {
    hide RoundUp;
    AtLeastOne(c, m);
    var k := (t + m * c - 1) / (m * c);
    LeastMultiple(t, m * c, 0);
    assert m * (c * k) == m * c * k;
    LeastMultiple(t, m, c * k);
  }

  lemma ProductGrows(a: int, b: int, n: int)
    requires 0 <= a <= b && 0 <= n
    ensures 0 <= a * n <= b * n
  {
  }

  lemma {:induction false} AggGrows(a: Agg, native: bool, m: int, m': int)
    requires IsAlignment(m) && IsAlignment(m') && m <= m'
    ensures Grows(AggSize(a, native, m), AggSize(a, native, m'), m, m')
    decreases a, 0
  {
    match a
    case WrongLength =>
    case Pair(head, second) =>
      if AggType(head) == STRUCT {
        StructGrows(second, native, m, m');
      } else if second.Number? {
        var s := ScalarSize(ValType(second.code));
        ProductGrows(s, s, ValOffset(second.code));
      }
    case Triple(head, count, element) =>
      StructGrows(element, native, m, m');
      var o, o' := StructSize(element, native, m), StructSize(element, native, m');
      if o.Some? {
        ProductGrows(o.value.size, o'.value.size, ValOffset(count));
      }
  }

  lemma {:induction false} StructGrows(d: Desc, native: bool, m: int, m': int)
    requires IsAlignment(m) && IsAlignment(m') && m <= m'
    ensures Grows(StructSize(d, native, m), StructSize(d, native, m'), m, m')
    decreases d, 1
  {
    match d
    case Number(_) =>
    case Tuple(a) => AggGrows(a, native, m, m');
    case Dict(fields) =>
      FieldsGrow(fields, native, m, m');
      var o, o' := FieldsSize(fields, native, m), FieldsSize(fields, native, m');
      if o.Some? {
        AlignedGrows(o.value.size, o.value.max, o'.value.size, o'.value.max);
      }
  }

  lemma {:induction false} FieldGrows(f: FieldDesc, native: bool, m: int, m': int)
    requires IsAlignment(m) && IsAlignment(m') && m <= m'
    ensures Grows(FieldSize(f, native, m), FieldSize(f, native, m'), m, m')
    decreases f, 1
  {
    if f.Aggregate? {
      AggGrows(f.agg, native, m, m');
    }
  }

  lemma {:induction false} FieldsGrow(fields: seq<Field>, native: bool, m: int, m': int)
    requires IsAlignment(m) && IsAlignment(m') && m <= m'
    ensures Grows(FieldsSize(fields, native, m), FieldsSize(fields, native, m'), m, m')
    decreases fields, 0
  {
    if fields != [] {
      var init := fields[..|fields| - 1];
      FieldsGrow(init, native, m, m');
      var o, o' := FieldsSize(init, native, m), FieldsSize(init, native, m');
      if o.Some? {
        FieldGrows(fields[|fields| - 1].value, native, o.value.max, o'.value.max);
      }
    }
  }

  // ---------- no access leaves the computed size ----------

  /** The span is in the first `size` bytes, and some scalar has been counted. */
  ghost predicate Within(span: Option<Span>, o: Option<Sized>) {
    span.Some? && o.Some? ==>
      0 <= span.value.at && 0 <= span.value.size && span.value.at + span.value.size <= o.value.size && 0 < o.value.max
  }

  lemma {:induction false} ReachIsInside(d: Desc, native: bool, path: seq<Step>, m: int)
    requires IsAlignment(m)
    ensures Within(Reach(d, native, path), StructSize(d, native, m))
    decreases d, 1
  {
    if path != [] {
      match d
      case Number(_) =>
      case Tuple(a) => ReachAggIsInside(a, native, path, m);
      case Dict(fields) =>
        if path[0].Attr? {
          ReachFieldIsInside(fields, path[0].name, native, path[1..], m);
          FieldsGrow(fields, native, m, m);
          var o := FieldsSize(fields, native, m);
          if o.Some? {
            AlignedGrows(o.value.size, o.value.max, o.value.size, o.value.max);
          }
        }
    }
  }

  lemma {:induction false} ReachFieldIsInside(fields: seq<Field>, name: string, native: bool, path: seq<Step>, m: int)
    requires IsAlignment(m)
    ensures Within(ReachField(fields, name, native, path), FieldsSize(fields, native, m))
    decreases fields, 0
  {
    if fields != [] {
      var init, last := fields[..|fields| - 1], fields[|fields| - 1];
      ReachFieldIsInside(init, name, native, path, m);
      FieldsGrow(init, native, m, m);
      var before := FieldsSize(init, native, m);
      if before.Some? {
        FieldGrows(last.value, native, before.value.max, before.value.max);
        if last.value.Aggregate? {
          ReachMemberIsInside(last.value.agg, native, path, before.value.max);
        }
      }
    }
  }

  lemma {:induction false} ReachMemberIsInside(a: Agg, native: bool, path: seq<Step>, m: int)
    requires IsAlignment(m)
    ensures Within(ReachMember(a, native, path), AggSize(a, native, m))
    decreases a, 2
  {
    if !a.WrongLength? {
      if AggType(a.head) == STRUCT {
        if a.Pair? {
          ReachIsInside(a.second, native, path, m);
        }
      } else if path != [] {
        ReachAggIsInside(a, native, path, m);
      }
    }
  }

  lemma ElementIsInside(i: int, n: int, stride: int, end: int, item: int)
    requires 0 <= i < n && 0 <= end <= stride <= item
    ensures 0 <= stride * i && stride * i + end <= item * n
  {
    assert stride * i + stride == stride * (i + 1);
    assert stride * (i + 1) <= stride * n <= item * n by {
      ProductGrows(i + 1, n, stride);
      ProductGrows(stride, item, n);
    }
  }

  lemma {:induction false} ReachAggIsInside(a: Agg, native: bool, path: seq<Step>, m: int)
    requires IsAlignment(m) && path != []
    ensures Within(ReachAgg(a, native, path), AggSize(a, native, m))
    decreases a, 0
  {
    if ReachAgg(a, native, path).Some? {
      if a.Pair? {
        var s := ScalarSize(ValType(a.second.code));
        ElementIsInside(path[0].i, ValOffset(a.second.code), s, s, s);
      } else {
        ReachIsInside(a.element, native, path[1..], 0);
        StructGrows(a.element, native, 0, m);
        var stride, item := StructSize(a.element, native, 0).value, StructSize(a.element, native, m).value;
        var inner := Reach(a.element, native, path[1..]).value;
        ElementIsInside(path[0].i, ValOffset(a.count), stride.size, inner.at + inner.size, item.size);
        ElementIsInside(path[0].i, ValOffset(a.count), stride.size, inner.at, item.size);
      }
    }
  }

  /** `sizeof`: the size with no scalar met before. */
  function SizeOf(d: Desc, native: bool): Option<Sized> {
    StructSize(d, native, 0)
  }

  /** Every access to a structure that `sizeof` accepts stays within the size it reports. */
  lemma AccessIsInsideSize(d: Desc, native: bool, path: seq<Step>)
    requires SizeOf(d, native).Some? && Reach(d, native, path).Some?
    ensures var span := Reach(d, native, path).value;
            0 <= span.at && 0 <= span.size && span.at + span.size <= SizeOf(d, native).value.size
  {
    ReachIsInside(d, native, path, 0);
  }

  // ---------- the computation as it runs ----------

  lemma {:induction false} OneBadFieldIsEnough(fields: seq<Field>, native: bool, max: int, i: int)
    requires 0 <= i <= |fields| && FieldsSize(fields[..i], native, max).None?
    ensures FieldsSize(fields, native, max).None?
    decreases |fields| - i
  {
    if i == |fields| {
      assert fields[..i] == fields;
    } else {
      assert fields[..i + 1][..i] == fields[..i];
      OneBadFieldIsEnough(fields, native, max, i + 1);
    }
  }

  /** `uctypes_struct_agg_size`; the running maximum is handed in and out. */
  method ComputeAggSize(a: Agg, native: bool, max: int) returns (r: Option<Sized>)
    ensures r == AggSize(a, native, max)
    decreases a, 0
  {
    if a.WrongLength? {
      return None;
    }
    var kind := AggType(a.head);
    if kind == STRUCT {
      if !a.Pair? {
        return None;
      }
      r := ComputeStructSize(a.second, native, max);
    } else if kind == PTR {
      if !a.Pair? {
        return None;
      }
      r := Some(Sized(ADDRESS_SIZE, if ADDRESS_SIZE > max then ADDRESS_SIZE else max));
    } else if kind == ARRAY {
      if a.Pair? {
        if !a.second.Number? {
          return None;
        }
        var itemSize := ScalarSize(ValType(a.second.code));
        r := Some(Sized(itemSize * ValOffset(a.second.code), if itemSize > max then itemSize else max));
      } else {
        var item := ComputeStructSize(a.element, native, max);
        r := if item.None? then None else Some(Sized(item.value.size * ValOffset(a.count), item.value.max));
      }
    } else {
      r := None;
    }
  }

  /** `uctypes_struct_size`. */
  method ComputeStructSize(d: Desc, native: bool, max: int) returns (r: Option<Sized>)
    ensures r == StructSize(d, native, max)
    decreases d, 1
  {
    if d.Number? {
      return None;
    }
    if d.Tuple? {
      r := ComputeAggSize(d.agg, native, max);
      return;
    }
    var total, maxFieldSize := 0, max;
    NoFieldsYet(d.fields, native, max);
    for i := 0 to |d.fields|
      invariant FieldsSize(d.fields[..i], native, max) == Some(Sized(total, maxFieldSize))
    {
      hide FieldsSize, FieldSize;
      OneMoreField(d.fields, native, max, i);
      var s := ComputeFieldSize(d.fields[i].value, native, maxFieldSize);
      if s.None? {
        OneBadFieldIsEnough(d.fields, native, max, i + 1);
        return None;
      }
      maxFieldSize := s.value.max;
      if s.value.size > total {
        total := s.value.size;
      }
    }
    assert d.fields[..|d.fields|] == d.fields;
    if native {
      total := Aligned(total, maxFieldSize);
    }
    r := Some(Sized(total, maxFieldSize));
  }

  /** One turn of the loop: the end of the field, and the largest scalar met by then. */
  method ComputeFieldSize(f: FieldDesc, native: bool, max: int) returns (r: Option<Sized>)
    ensures r == FieldSize(f, native, max)
    decreases f, 1
  {
    match f
    case Scalar(code) =>
      var s, m := ScalarSize(ValType(code)), max;
      if s > m {
        m := s;
      }
      r := Some(Sized(FieldOffset(code) + s, m));
    case Aggregate(a) =>
      r := ComputeAggSize(a, native, max);
      if r.Some? {
        r := Some(Sized((if a.WrongLength? then 0 else AggOffset(a.head)) + r.value.size, r.value.max));
      }
  }

  lemma NoFieldsYet(fields: seq<Field>, native: bool, max: int)
    ensures FieldsSize(fields[..0], native, max) == Some(Sized(0, max))
  {
  }

  lemma OneMoreField(fields: seq<Field>, native: bool, max: int, i: int)
    requires 0 <= i < |fields| && FieldsSize(fields[..i], native, max).Some?
    ensures var before := FieldsSize(fields[..i], native, max).value;
            FieldsSize(fields[..i + 1], native, max) ==
            match FieldSize(fields[i].value, native, before.max)
            case None => None
            case Some(last) => Some(Sized(Max(before.size, last.size), last.max))
  {
    assert fields[..i + 1][..i] == fields[..i];
  }
}

/** What the sizes are: the fields of a code, the size of each type, and how far below the reported size the accesses
    can stay. */
module UctypesSizes {
  import opened Arithmetic
  import opened Basics
  import opened Uctypes

  // ---------- the codes ----------

  /** A type from 8 on stands in the sign bit, so that such a code is a negative number. */
  lemma CodeReadsBack(t: int, below: int, code: int)
    requires 0 <= t < 16 && 0 <= below < 134_217_728 && code == 134_217_728 * (if t < 8 then t else t - 16) + below
    ensures ValType(code) == t && ValOffset(code) == below
    ensures code < 0 <==> 8 <= t
  {
  }

  lemma HeadReadsBack(kind: int, below: int, head: int)
    requires 0 <= kind < 4 && 0 <= below < 536_870_912
    requires head == 536_870_912 * (if kind < 2 then kind else kind - 4) + below
    ensures AggType(head) == kind && AggOffset(head) == below
    ensures head < 0 <==> 2 <= kind
  {
  }

  /** The offset of a bit field is below its position and length; any other scalar uses all 27 bits. */
  lemma OffsetReadsBack(code: int, position: int, length: int, offset: int)
    requires 0 <= position < 32 && 0 <= length < 32 && 0 <= offset < 131_072
    requires ValOffset(code) == offset + 131_072 * position + 4_194_304 * length
    ensures FieldOffset(code) == if 8 <= ValType(code) <= 13 then offset else ValOffset(code)
  {
    Low17(ValOffset(code), position + 32 * length, offset);
  }

  lemma Low17(n: nat, q: nat, r: nat)
    requires n == 131_072 * q + r && r < 131_072
    ensures n % 131_072 == r
  {
  }

  /** The types in the order of their codes: the integers of each width, the bit fields in them, and two floats. */
  const SIZES: seq<int> := [1, 1, 2, 2, 4, 4, 8, 8, 1, 1, 2, 2, 4, 4, 4, 8]

  lemma SizeOfType(t: int)
    requires 0 <= t < 16
    ensures ScalarSize(t) == SIZES[t]
  {
  }

  // ---------- the largest scalar ----------

  /** The sizes of the scalars and pointers in a descriptor. */
  function Widths(d: Desc): set<int>
    decreases d, 1
  {
    match d
    case Number(_) => {}
    case Tuple(a) => AggWidths(a)
    case Dict(fields) => FieldsWidths(fields)
  }

  function FieldsWidths(fields: seq<Field>): set<int>
    decreases fields, 0
  {
    if fields == [] then {} else FieldsWidths(fields[..|fields| - 1]) + FieldWidths(fields[|fields| - 1].value)
  }

  function FieldWidths(f: FieldDesc): set<int>
    decreases f, 1
  {
    match f
    case Scalar(code) => {SIZES[ValType(code)]}
    case Aggregate(a) => AggWidths(a)
  }

  function AggWidths(a: Agg): set<int>
    decreases a, 0
  {
    match a
    case WrongLength => {}
    case Pair(head, second) =>
      if AggType(head) == PTR then {4}
      else if second.Number? then {SIZES[ValType(second.code)]}
      else Widths(second)
    case Triple(_, _, element) => Widths(element)
  }

  /** The maximum that comes out is the one that went in or one of the widths, whichever is largest. */
  predicate IsLargest(m: int, out: int, widths: set<int>) {
    m <= out && (out == m || out in widths) && forall w :: w in widths ==> w <= out
  }

  lemma {:induction false} LargestOfStruct(d: Desc, native: bool, m: int)
    requires StructSize(d, native, m).Some?
    ensures IsLargest(m, StructSize(d, native, m).value.max, Widths(d))
    decreases d, 1
  {
    match d
    case Tuple(a) => LargestOfAgg(a, native, m);
    case Dict(fields) => LargestOfFields(fields, native, m);
  }

  lemma {:induction false} LargestOfFields(fields: seq<Field>, native: bool, m: int)
    requires FieldsSize(fields, native, m).Some?
    ensures IsLargest(m, FieldsSize(fields, native, m).value.max, FieldsWidths(fields))
    decreases fields, 0
  {
    if fields != [] {
      var init, last := fields[..|fields| - 1], fields[|fields| - 1];
      LargestOfFields(init, native, m);
      LargestOfField(last.value, native, FieldsSize(init, native, m).value.max);
    }
  }

  lemma {:induction false} LargestOfField(f: FieldDesc, native: bool, m: int)
    requires FieldSize(f, native, m).Some?
    ensures IsLargest(m, FieldSize(f, native, m).value.max, FieldWidths(f))
    decreases f, 1
  {
    match f
    case Scalar(code) => SizeOfType(ValType(code));
    case Aggregate(a) => LargestOfAgg(a, native, m);
  }

  lemma {:induction false} LargestOfAgg(a: Agg, native: bool, m: int)
    requires AggSize(a, native, m).Some?
    ensures IsLargest(m, AggSize(a, native, m).value.max, AggWidths(a))
    decreases a, 0
  {
    match a
    case Pair(head, second) =>
      if AggType(head) == STRUCT {
        LargestOfStruct(second, native, m);
      } else if AggType(head) == ARRAY {
        SizeOfType(ValType(second.code));
      }
    case Triple(_, _, element) => LargestOfStruct(element, native, m);
  }

  // ---------- packed sizes do not depend on the scalars met before ----------

  predicate SameSize(o: Option<Sized>, o': Option<Sized>) {
    (o.None? <==> o'.None?) && (o.Some? ==> o.value.size == o'.value.size)
  }

  lemma {:induction false} PackedStruct(d: Desc, m: int, m': int)
    ensures SameSize(StructSize(d, false, m), StructSize(d, false, m'))
    decreases d, 1
  {
    match d
    case Number(_) =>
    case Tuple(a) => PackedAgg(a, m, m');
    case Dict(fields) => PackedFields(fields, m, m');
  }

  lemma {:induction false} PackedFields(fields: seq<Field>, m: int, m': int)
    ensures SameSize(FieldsSize(fields, false, m), FieldsSize(fields, false, m'))
    decreases fields, 0
  {
    if fields != [] {
      var init, last := fields[..|fields| - 1], fields[|fields| - 1];
      PackedFields(init, m, m');
      if FieldsSize(init, false, m).Some? && last.value.Aggregate? {
        PackedAgg(last.value.agg, FieldsSize(init, false, m).value.max, FieldsSize(init, false, m').value.max);
      }
    }
  }

  lemma {:induction false} PackedAgg(a: Agg, m: int, m': int)
    ensures SameSize(AggSize(a, false, m), AggSize(a, false, m'))
    decreases a, 0
  {
    match a
    case WrongLength =>
    case Pair(head, second) =>
      if AggType(head) == STRUCT {
        PackedStruct(second, m, m');
      }
    case Triple(_, _, element) => PackedStruct(element, m, m');
  }

  // ---------- an access that ends at the end ----------

  /** Every structure has a field, every array an element, no two fields of a structure share a name, and all of it
      can be accessed. */
  ghost predicate Solid(d: Desc)
    decreases d, 1
  {
    match d
    case Number(_) => false
    case Tuple(a) => SolidArray(a)
    case Dict(fields) => fields != [] && SolidFields(fields)
  }

  ghost predicate SolidFields(fields: seq<Field>)
    decreases fields, 0
  {
    fields != [] ==>
      var init, last := fields[..|fields| - 1], fields[|fields| - 1];
      && SolidFields(init) && (forall i :: 0 <= i < |init| ==> init[i].name != last.name)
      && (last.value.Aggregate? ==> SolidMember(last.value.agg))
  }

  ghost predicate SolidMember(a: Agg)
    decreases a, 1
  {
    if a.Pair? && AggType(a.head) == STRUCT then Solid(a.second)
    else if a.Pair? && AggType(a.head) == PTR then true
    else SolidArray(a)
  }

  ghost predicate SolidArray(a: Agg)
    decreases a, 0
  {
    match a
    case WrongLength => false
    case Pair(head, second) => AggType(head) == ARRAY && second.Number? && ValOffset(second.code) > 0
    case Triple(head, count, element) => AggType(head) == ARRAY && ValOffset(count) > 0 && Solid(element)
  }

  /** The access ends exactly where the size does. */
  ghost predicate EndsAt(span: Option<Span>, o: Option<Sized>) {
    span.Some? && o.Some? && span.value.at + span.value.size == o.value.size
  }

  /** Packed: the size does not depend on the scalars met before, and the last access of a solid descriptor ends at
      it, so that no smaller size holds every access. */
  lemma {:induction false} LastAccess(d: Desc, m: int) returns (path: seq<Step>)
    requires Solid(d)
    ensures EndsAt(Reach(d, false, path), StructSize(d, false, m)) && StructSize(d, false, m).value.size > 0
    decreases d, 1
  {
    match d
    case Tuple(a) => path := LastOfArray(a, m);
    case Dict(fields) =>
      var name, rest := LastOfFields(fields, m);
      path := [Attr(name)] + rest;
      assert path[1..] == rest;
  }

  lemma {:induction false} LastOfFields(fields: seq<Field>, m: int) returns (name: string, rest: seq<Step>)
    requires fields != [] && SolidFields(fields)
    ensures exists i :: 0 <= i < |fields| && fields[i].name == name
    ensures EndsAt(ReachField(fields, name, false, rest), FieldsSize(fields, false, m))
    ensures FieldsSize(fields, false, m).value.size > 0
    decreases fields, 0
  {
    var init, last := fields[..|fields| - 1], fields[|fields| - 1];
    var before := Sized(0, m);
    if init != [] {
      name, rest := LastOfFields(init, m);
      before := FieldsSize(init, false, m).value;
    }
    var path := LastOfField(last.value, before.max);
    var end := FieldSize(last.value, false, before.max).value.size;
    if init == [] || before.size < end {
      name, rest := last.name, path;
    } else {
      assert name != last.name;
    }
  }

  /** The bytes of a field by itself. */
  function ReachValue(f: FieldDesc, path: seq<Step>): Option<Span> {
    match f
    case Scalar(code) => if path == [] then Some(Span(FieldOffset(code), ScalarSize(ValType(code)))) else None
    case Aggregate(a) => if a.WrongLength? then None else Shift(AggOffset(a.head), ReachMember(a, false, path))
  }

  lemma {:induction false} LastOfField(f: FieldDesc, m: int) returns (path: seq<Step>)
    requires f.Aggregate? ==> SolidMember(f.agg)
    ensures EndsAt(ReachValue(f, path), FieldSize(f, false, m)) && FieldSize(f, false, m).value.size > 0
    decreases f, 1
  {
    match f
    case Scalar(code) => path := [];
    case Aggregate(a) => path := LastOfMember(a, m);
  }

  lemma {:induction false} LastOfMember(a: Agg, m: int) returns (path: seq<Step>)
    requires SolidMember(a)
    ensures EndsAt(ReachMember(a, false, path), AggSize(a, false, m)) && AggSize(a, false, m).value.size > 0
    decreases a, 1
  {
    if a.Pair? && AggType(a.head) == STRUCT {
      path := LastAccess(a.second, m);
    } else if a.Pair? && AggType(a.head) == PTR {
      path := [];
    } else {
      path := LastOfArray(a, m);
    }
  }

  lemma LastElement(stride: int, n: int)
    requires 0 < stride && 0 < n
    ensures stride * (n - 1) + stride == stride * n > 0
  {
  }

  lemma {:induction false} LastOfArray(a: Agg, m: int) returns (path: seq<Step>)
    requires SolidArray(a)
    ensures path != [] && EndsAt(ReachAgg(a, false, path), AggSize(a, false, m)) && AggSize(a, false, m).value.size > 0
    decreases a, 0
  {
    match a
    case Pair(_, second) =>
      path := [Index(ValOffset(second.code) - 1)];
      LastElement(ScalarSize(ValType(second.code)), ValOffset(second.code));
    case Triple(_, count, element) =>
      var rest := LastAccess(element, m);
      PackedStruct(element, 0, m);
      path := [Index(ValOffset(count) - 1)] + rest;
      assert path[1..] == rest;
      LastElement(StructSize(element, false, m).value.size, ValOffset(count));
  }

  ghost predicate AllFit(d: Desc, native: bool, n: int) {
    forall path :: Reach(d, native, path).Some? ==>
                     Reach(d, native, path).value.at + Reach(d, native, path).value.size <= n
  }

  /** Packed: the reported size is the least one that holds every access. */
  lemma PackedSizeIsLeast(d: Desc, n: int)
    requires Solid(d)
    ensures SizeOf(d, false).Some? && (AllFit(d, false, n) <==> SizeOf(d, false).value.size <= n)
  {
    hide Reach;
    var path := LastAccess(d, 0);
    forall path | Reach(d, false, path).Some?
      ensures Reach(d, false, path).value.at + Reach(d, false, path).value.size <= SizeOf(d, false).value.size
    {
      AccessIsInsideSize(d, false, path);
    }
  }

  /** No structure inside the structure. */
  predicate Flat(fields: seq<Field>) {
    forall i :: 0 <= i < |fields| && fields[i].value.Aggregate? ==>
                  fields[i].value.agg.Pair? && AggType(fields[i].value.agg.head) != STRUCT
  }

  lemma {:induction false} FlatIsPacked(fields: seq<Field>, name: string, path: seq<Step>, m: int)
    requires Flat(fields)
    ensures FieldsSize(fields, true, m) == FieldsSize(fields, false, m)
    ensures ReachField(fields, name, true, path) == ReachField(fields, name, false, path)
    decreases fields
  {
    if fields != [] {
      var init, last := fields[..|fields| - 1], fields[|fields| - 1];
      FlatIsPacked(init, name, path, m);
      if FieldsSize(init, true, m).Some? {
        FlatField(last.value, path, FieldsSize(init, true, m).value.max);
      } else {
        FlatField(last.value, path, m);
      }
    }
  }

  lemma FlatField(f: FieldDesc, path: seq<Step>, m: int)
    requires f.Aggregate? ==> f.agg.Pair? && AggType(f.agg.head) != STRUCT
    ensures FieldSize(f, true, m) == FieldSize(f, false, m)
    ensures f.Aggregate? ==> ReachMember(f.agg, true, path) == ReachMember(f.agg, false, path)
  {
    if f.Aggregate? && path != [] {
      assert ReachAgg(f.agg, true, path) == ReachAgg(f.agg, false, path);
    }
  }

  /** Native: the reported size of a flat structure is the least multiple of its largest scalar that holds every
      access. */
  lemma NativeSizeIsLeast(fields: seq<Field>, k: int)
    requires Solid(Dict(fields)) && Flat(fields)
    ensures SizeOf(Dict(fields), true).Some?
    ensures var size, widest := SizeOf(Dict(fields), true).value.size, SizeOf(Dict(fields), true).value.max;
            && widest in Widths(Dict(fields)) && (forall w :: w in Widths(Dict(fields)) ==> w <= widest)
            && (exists j :: size == widest * j)
            && (AllFit(Dict(fields), true, widest * k) <==> size <= widest * k)
  {
    hide Reach, Widths, RoundUp, StructSize;
    var d := Dict(fields);
    FlatStruct(fields);
    assert StructSize(d, true, 0) == SizeOf(d, true);
    LastAccessIsInside(d);
    LargestOfStruct(d, true, 0);
    var packed, widest := SizeOf(d, false).value.size, SizeOf(d, false).value.max;
    LeastMultiple(packed, widest, k);
    PackedSizeIsLeast(d, widest * k);
  }

  lemma LastAccessIsInside(d: Desc)
    requires Solid(d)
    ensures SizeOf(d, false).Some? && 0 < SizeOf(d, false).value.max
  {
    hide Reach, StructSize;
    var path := LastAccess(d, 0);
    ReachIsInside(d, false, path, 0);
  }

  lemma FlatStruct(fields: seq<Field>)
    requires Flat(fields)
    ensures forall path :: Reach(Dict(fields), true, path) == Reach(Dict(fields), false, path)
    ensures SizeOf(Dict(fields), true) ==
            match SizeOf(Dict(fields), false)
            case None => None
            case Some(s) => Some(Sized(Aligned(s.size, s.max), s.max))
  {
    hide FieldsSize, ReachField, Aligned;
    FlatIsPacked(fields, "", [], 0);
    forall path: seq<Step>
      ensures Reach(Dict(fields), true, path) == Reach(Dict(fields), false, path)
    {
      if path != [] && path[0].Attr? {
        FlatIsPacked(fields, path[0].name, path[1..], 0);
      }
    }
  }
}
