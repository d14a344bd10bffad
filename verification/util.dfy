/** The helpers of src/util.c: parsing an index from text, the bounding
    box of a polygon, the unit suffix of a byte count, and the memory gate
    that guards large result buffers. */
module Util {
  import opened Types

  // ---------------------------------------------------------------------
  // Index from text
  // ---------------------------------------------------------------------

  /** Parses `text` with H3's `stringToH3` (passed in, since it is a foreign
      routine) and rejects the result 0, which is how H3 reports a string it
      cannot parse. */
  function IndexFromCString(text: string, stringToH3: string -> H3Index): (r: Result<H3Index>)
    ensures r.Ok? <==> stringToH3(text) != 0
    ensures r.Ok? ==> r.value == stringToH3(text)
    ensures r.Err? ==> r.error == InvalidIndexString(text)
  {
    var index := stringToH3(text);
    if index == 0 then Err(InvalidIndexString(text)) else Ok(index)
  }

  // ---------------------------------------------------------------------
  // Bounding box
  // ---------------------------------------------------------------------

  /** A PostgreSQL point; coordinates are only compared, never computed. */
  datatype Point = Point(x: real, y: real)

  datatype Box = Box(low: Point, high: Point)

  /** A closed polygon given by its vertices in order. */
  datatype Polygon = Polygon(pts: seq<Point>)

  predicate Encloses(box: Box, p: Point) {
    box.low.x <= p.x <= box.high.x && box.low.y <= p.y <= box.high.y
  }

  predicate EnclosesAll(box: Box, pts: seq<Point>) {
    forall i :: 0 <= i < |pts| ==> Encloses(box, pts[i])
  }

  /** Every side of the box lies on some vertex. */
  predicate Tight(box: Box, pts: seq<Point>) {
    && (exists i :: 0 <= i < |pts| && pts[i].x == box.low.x)
    && (exists i :: 0 <= i < |pts| && pts[i].x == box.high.x)
    && (exists i :: 0 <= i < |pts| && pts[i].y == box.low.y)
    && (exists i :: 0 <= i < |pts| && pts[i].y == box.high.y)
  }

  /** `inner` lies within `outer`. */
  predicate Within(inner: Box, outer: Box) {
    outer.low.x <= inner.low.x && inner.high.x <= outer.high.x
    && outer.low.y <= inner.low.y && inner.high.y <= outer.high.y
  }

  /** The min/max fold of `__h3_make_bound_box`, which asserts that the
      polygon has at least one point. The result encloses every point, each
      side touches a point, and so it lies within every enclosing box. */
  method MakeBoundBox(poly: Polygon) returns (box: Box)
    requires |poly.pts| > 0
    ensures EnclosesAll(box, poly.pts)
    ensures Tight(box, poly.pts)
    ensures forall other :: EnclosesAll(other, poly.pts) ==> Within(box, other)
  {
    var p := poly.pts;
    var x1, x2 := p[0].x, p[0].x;
    var y1, y2 := p[0].y, p[0].y;
    ghost var ix1, ix2, iy1, iy2 := 0, 0, 0, 0;
    var i := 1;
    while i < |p|
      invariant 1 <= i <= |p|
      invariant EnclosesAll(Box(Point(x1, y1), Point(x2, y2)), p[..i])
      invariant 0 <= ix1 < i && p[ix1].x == x1
      invariant 0 <= ix2 < i && p[ix2].x == x2
      invariant 0 <= iy1 < i && p[iy1].y == y1
      invariant 0 <= iy2 < i && p[iy2].y == y2
    {
      if p[i].x < x1 { x1 := p[i].x; ix1 := i; }
      if p[i].x > x2 { x2 := p[i].x; ix2 := i; }
      if p[i].y < y1 { y1 := p[i].y; iy1 := i; }
      if p[i].y > y2 { y2 := p[i].y; iy2 := i; }
      i := i + 1;
    }
    assert p[..i] == p;
    box := Box(Point(x1, y1), Point(x2, y2));
    assert Encloses(box, p[ix1]) && Encloses(box, p[iy1]);
    forall other | EnclosesAll(other, p)
      ensures Within(box, other)
    {
      assert Encloses(other, p[ix1]) && Encloses(other, p[ix2]);
      assert Encloses(other, p[iy1]) && Encloses(other, p[iy2]);
    }
  }

  // ---------------------------------------------------------------------
  // Unit suffix of a byte count
  // ---------------------------------------------------------------------

  /** The suffix table of `human_byte_size`. */
  const Suffixes: seq<string> := ["B", "KB", "MB", "GB", "TB"]

  function Pow1024(k: nat): (r: nat)
    ensures r >= 1
  {
    if k == 0 then 1 else 1024 * Pow1024(k - 1)
  }

  lemma MulLeq(a: nat, b: nat, c: nat)
    requires a <= b
    ensures a * c <= b * c
  {
  }

  /** Division is determined by quotient and remainder. */
  lemma DivUnique(x: nat, d: nat, q: nat, r: nat)
    requires d >= 1 && x == d * q + r && r < d
    ensures x / d == q
  {
    var q', r' := x / d, x % d;
    assert x == d * q' + r';
    if q' < q {
      MulLeq(q' + 1, q, d);
      assert false;
    } else if q' > q {
      MulLeq(q + 1, q', d);
      assert false;
    }
  }

  lemma DivDiv(x: nat, d: nat)
    requires d >= 1
    ensures x / d / 1024 == x / (1024 * d)
  {
    var q, r := x / d, x % d;
    var q2, r2 := q / 1024, q % 1024;
    assert x == d * q + r;
    assert q == 1024 * q2 + r2;
    assert d * q == (1024 * d) * q2 + d * r2 by {
      assert d * (1024 * q2 + r2) == d * (1024 * q2) + d * r2;
    }
    MulLeq(r2, 1023, d);
    DivUnique(x, 1024 * d, q2, d * r2 + r);
  }

  /** One more division by 1024 keeps the quotient non-zero exactly when
      `1024 * d` still fits into `x`. */
  lemma QuotientStep(x: nat, d: nat)
    requires d >= 1
    ensures x / d / 1024 > 0 <==> 1024 * d <= x
    ensures x / d / 1024 == x / (1024 * d)
  {
    DivDiv(x, d);
    if 1024 * d <= x {
      DivUnique(x, 1024 * d, x / (1024 * d), x % (1024 * d));
    } else {
      DivUnique(x, 1024 * d, 0, x);
    }
  }

  /** The number of times `human_byte_size` divides `size` by 1024: none
      when `size` is at most 1024, otherwise as long as a further division
      leaves a non-zero quotient, but never beyond the last suffix. The
      result is the largest `i` with `1024^i <= size`, capped at the index
      of "TB", so `Suffixes[i]` is always in bounds. */
  method SuffixIndex(size: nat) returns (i: nat)
    ensures i < |Suffixes|
    ensures size <= 1024 ==> i == 0
    ensures size > 1024 ==> 1 <= i && Pow1024(i) <= size
    ensures size > 1024 ==> i == |Suffixes| - 1 || size < Pow1024(i + 1)
  {
    i := 0;
    var s := size;
    if size > 1024 {
      QuotientStep(size, 1);
      while s / 1024 > 0 && i < |Suffixes| - 1
        invariant i < |Suffixes|
        invariant s == size / Pow1024(i)
        invariant Pow1024(i) <= size
        invariant i == 0 ==> s / 1024 > 0
      {
        QuotientStep(size, Pow1024(i));
        i, s := i + 1, s / 1024;
      }
      QuotientStep(size, Pow1024(i));
    }
  }

  // ---------------------------------------------------------------------
  // Allocation gate for polyfill-sized buffers
  // ---------------------------------------------------------------------

  /** PostgreSQL's `MaxAllocSize`: the largest request the standard
      allocator accepts (1 GB - 1). */
  const MaxAllocSize: nat := 0x3fff_ffff

  /** `size_t` arithmetic wraps modulo 2^64. */
  const SizeModulus: nat := 0x1_0000_0000_0000_0000

  const BytesPerMb: nat := 1024 * 1024

  /** `MCXT_ALLOC_HUGE` and `MCXT_ALLOC_ZERO` of PostgreSQL's palloc.h. */
  const AllocHuge: bv32 := 0x01
  const AllocZero: bv32 := 0x04

  predicate AllocSizeIsValid(size: nat) {
    size <= MaxAllocSize
  }

  /** `n * sizeof(H3Index)` for an `int` slot count `n`: the count is
      converted to `size_t`, so a negative one wraps modulo 2^64. */
  function SlotBytes(n: Int32): nat {
    if n >= 0 then n * 8 else SizeModulus + n * 8
  }

  /** Whether a plain `palloc0` of `n` H3 indexes is accepted. The
      polyfill, k-ring and children buffers bypass the gate, and PostgreSQL
      raises "invalid memory alloc request size" for any request above
      `MaxAllocSize`. */
  predicate SlotsFit(n: Int32) {
    AllocSizeIsValid(SlotBytes(n))
  }

  /** A plain slot buffer is allocated exactly for the counts 0 .. 2^27 - 1:
      every negative count wraps to a request far above `MaxAllocSize`. */
  lemma SlotsFitRange(n: Int32)
    ensures SlotsFit(n) <==> 0 <= n < 0x800_0000
  {
  }

  type Int32 = x: int | -0x8000_0000 <= x < 0x8000_0000

  /** What the configuration lookup yields: no such setting, a value
      `parse_int` rejects, or a value in megabytes. */
  datatype Setting = Unset | Unparsable(text: string) | Megabytes(mb: Int32)

  /** `(size_t)mb * 1024 * 1024`: a negative `int` converts to a huge
      unsigned value, and the product wraps modulo 2^64. */
  function MegabytesToBytes(mb: Int32): (b: nat)
    ensures b < SizeModulus
    ensures mb >= 0 ==> b == mb * BytesPerMb
    ensures mb < 0 ==> b == SizeModulus + mb * BytesPerMb
    ensures b == 0 <==> mb == 0
  {
    var b := ((mb % SizeModulus) * 1024 * 1024) % SizeModulus;
    if mb < 0 then
      assert (mb % SizeModulus) == SizeModulus + mb;
      assert (SizeModulus + mb) * BytesPerMb == SizeModulus * (BytesPerMb - 1) + (SizeModulus + mb * BytesPerMb);
      DivUnique((SizeModulus + mb) * BytesPerMb, SizeModulus, BytesPerMb - 1, SizeModulus + mb * BytesPerMb);
      b
    else
      b
  }

  /** The limit `__h3_polyfill_palloc0` works with, given the cached static
      `cached` (0 until first set). The setting is read only while nothing
      is cached; an unset or zero setting falls back to `MaxAllocSize`. */
  function ResolveLimit(cached: nat, setting: Setting): (r: Result<nat>)
    ensures cached != 0 ==> r == Ok(cached)
    ensures r.Ok? ==> r.value != 0
    ensures cached == 0 ==> (r.Err? <==> setting.Unparsable?)
    ensures cached == 0 && setting.Unparsable? ==> r == Err(ConfigUnparsable(setting.text))
    ensures cached == 0 && setting.Unset? ==> r == Ok(MaxAllocSize)
    ensures cached == 0 && setting.Megabytes? && setting.mb == 0 ==> r == Ok(MaxAllocSize)
    ensures cached == 0 && setting.Megabytes? && setting.mb > 0 ==> r == Ok(setting.mb * BytesPerMb)
    ensures cached == 0 && setting.Megabytes? && setting.mb < 0 ==> r == Ok(SizeModulus + setting.mb * BytesPerMb)
    ensures cached == 0 && setting.Megabytes? && setting.mb != 0 ==> r == Ok(MegabytesToBytes(setting.mb))
  {
    if cached != 0 then Ok(cached)
    else
      match setting
      case Unset => Ok(MaxAllocSize)
      case Unparsable(text) => Err(ConfigUnparsable(text))
      case Megabytes(mb) =>
        var bytes := MegabytesToBytes(mb);
        Ok(if bytes == 0 then MaxAllocSize else bytes)
  }

  /** `__h3_polyfill_palloc0(size)` up to the allocation itself: the new
      value of the cached limit and either an ERROR or the flags passed to
      `palloc_extended`. The cache is stored before the size check, so a
      refused request still leaves it set. */
  function PolyfillAlloc(cached: nat, setting: Setting, size: nat): (r: (nat, Result<bv32>))
    ensures ResolveLimit(cached, setting).Err? ==> r == (cached, Err(ResolveLimit(cached, setting).error))
    ensures ResolveLimit(cached, setting).Ok? ==> r.0 == ResolveLimit(cached, setting).value && r.0 != 0
    ensures r.1.Ok? <==> ResolveLimit(cached, setting).Ok? && size <= r.0
    ensures r.1.Err? && ResolveLimit(cached, setting).Ok? ==> r.1.error == LimitExceeded(size, r.0)
    ensures r.1.Ok? ==> r.1.value & AllocZero != 0
    ensures r.1.Ok? ==> (r.1.value & AllocHuge != 0 <==> !AllocSizeIsValid(size))
    ensures r.1.Ok? ==> r.1.value & !(AllocHuge | AllocZero) == 0
    ensures r.1.Ok? ==> r.1.value == AllocZero || r.1.value == AllocHuge | AllocZero
  {
    match ResolveLimit(cached, setting)
    case Err(e) => (cached, Err(e))
    case Ok(limit) =>
      if size > limit then (limit, Err(LimitExceeded(size, limit)))
      else
        var flags: bv32 := if !AllocSizeIsValid(size) then AllocHuge else 0;
        (limit, Ok(flags | AllocZero))
  }

  /** Once a call has cached a limit, later calls neither consult the
      setting nor change the cache. */
  lemma LimitReadOnce(cached: nat, setting: Setting, size: nat, later: Setting, size2: nat)
    requires ResolveLimit(cached, setting).Ok?
    ensures PolyfillAlloc(PolyfillAlloc(cached, setting, size).0, later, size2).0
         == PolyfillAlloc(cached, setting, size).0
    ensures PolyfillAlloc(PolyfillAlloc(cached, setting, size).0, later, size2)
         == PolyfillAlloc(PolyfillAlloc(cached, setting, size).0, setting, size2)
  {
  }

  /** Without a configured limit, every request the gate lets through fits
      the standard allocator, so the huge flag is never set. */
  lemma DefaultLimitNeverHuge(size: nat)
    requires PolyfillAlloc(0, Unset, size).1.Ok?
    ensures PolyfillAlloc(0, Unset, size).1.value & AllocHuge == 0
  {
  }
}
