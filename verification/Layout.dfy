/** Sizes of a shared-memory segment: rounding, the two rings' control regions, and the geometry
    that the gateway maps and the client recomputes. Sizes are 64-bit words. */
module Layout {
  import opened Words
  import opened Frames
  import opened SlotRing

  const SLOT_HEADER_SIZE: nat := 4 * CACHE_LINE
  const SHM_CONTROL_SIZE: nat := 128
  const WORD: nat := 8

  // ── Rounding ──

  /** `(v + align - 1) & !(align - 1)`. */
  function RoundUp(v: nat, align: nat): nat
    requires 0 < align <= U64_SPAN
  {
    And(v + align - 1, U64_SPAN - align)
  }

  /** The mask clears the remainder. */
  lemma RoundUpIs(v: nat, align: nat)
    requires IsPow2(align) && 0 < align < U64_SPAN && v + align - 1 < U64_SPAN
    ensures RoundUp(v, align) == (v + align - 1) - (v + align - 1) % align
  {
    hide And, Pow2;
    var k: nat :| Pow2(k) == align;
    Pow2Values();
    assert k <= 64 by { if k > 64 { Pow2Monotone(64, k); } }
    AndHighMask(v + align - 1, k, 64);
  }

  lemma RemainderCleared(x: nat, n: nat)
    requires n > 0
    ensures 0 <= x - x % n <= x < x - x % n + n && (x - x % n) % n == 0
  {
    var q := x / n;
    assert x - x % n == q * n;
    MultipleMod(q, n);
  }

  /** Rounding gives the least multiple of a power of two at or above its input. */
  lemma RoundUpLeast(v: nat, align: nat)
    requires IsPow2(align) && 0 < align < U64_SPAN && v + align - 1 < U64_SPAN
    ensures v <= RoundUp(v, align) < v + align && RoundUp(v, align) % align == 0
    ensures forall m: nat :: v <= m && m % align == 0 ==> RoundUp(v, align) <= m
    ensures v > 0 ==> RoundUp(v, align) >= align
  {
    hide RoundUp, IsPow2;
    RoundUpIs(v, align);
    RemainderCleared(v + align - 1, align);
    var r := RoundUp(v, align);
    forall m: nat | v <= m && m % align == 0 ensures r <= m { LeastMultiple(r, m, align); }
    if v > 0 { LeastMultipleIsPositive(r, align); }
  }

  lemma LeastMultiple(r: nat, m: nat, align: nat)
    requires align > 0 && r % align == 0 && m % align == 0 && r < m + align
    ensures r <= m
  {
    var a, b := r / align, m / align;
    assert r == a * align && m == b * align;
    MulAtLeast(a - b, align);
    assert (a - b) * align == r - m;
  }

  lemma LeastMultipleIsPositive(r: nat, align: nat)
    requires align > 0 && r % align == 0 && r > 0
    ensures r >= align
  {
    assert r == (r / align) * align;
    MulAtLeast(r / align, align);
  }

  /** Rounding a value up to at least one unit first makes no difference. */
  lemma RoundUpMax(v: nat, align: nat)
    requires IsPow2(align) && 0 < align < U64_SPAN && 0 < v && v + align - 1 < U64_SPAN && 2 * align - 1 < U64_SPAN
    ensures RoundUp(Max(v, align), align) == RoundUp(v, align)
  {
    hide RoundUp;
    RoundUpLeast(v, align);
    RoundUpLeast(Max(v, align), align);
    if v < align {
      assert align % align == 0;
      assert RoundUp(v, align) <= align && RoundUp(align, align) <= align;
    }
  }

  // ── Control regions ──

  /** `ring_control_bytes`: header, then one sequence word per slot, to a whole cache line. */
  function RingControlBytes(capacity: nat): nat { SLOT_HEADER_SIZE + RoundUp(capacity * WORD, CACHE_LINE) }

  function SlotControlSize(capacity: nat): nat { 2 * RingControlBytes(capacity) }

  lemma CacheLineIsPow2()
    ensures IsPow2(CACHE_LINE)
  {
    hide Pow2;
    Pow2Values();
    assert Pow2(6) == CACHE_LINE;
  }

  /** The first ring's region is `[0, stride)` and the second's `[stride, 2 * stride)`: both start on
      a cache line, and a header and its sequence words stay inside their own region. */
  lemma ControlRegions(capacity: nat)
    requires capacity < U32_SPAN
    ensures var stride := RingControlBytes(capacity);
      && stride % CACHE_LINE == 0
      && SLOT_HEADER_SIZE + capacity * WORD <= stride
      && stride + stride == SlotControlSize(capacity)
      && stride < SLOT_HEADER_SIZE + capacity * WORD + CACHE_LINE
    ensures capacity > 0 ==> SlotControlSize(capacity) >= 2 * (SLOT_HEADER_SIZE + CACHE_LINE)
  {
    CacheLineIsPow2();
    hide RoundUp, IsPow2;
    RoundUpLeast(capacity * WORD, CACHE_LINE);
  }

  // ── Geometry ──

  /** `segment_size_for`. */
  function SegmentSizeFor(maxPayload: nat): nat {
    Max(RoundUp(FRAME_HEADER_LEN + maxPayload, CACHE_LINE), CACHE_LINE)
  }

  /** The smallest segment that holds a frame of this payload. */
  lemma SegmentHoldsPayload(maxPayload: nat, capacity: nat)
    requires maxPayload < U32_SPAN - 2 * CACHE_LINE && 2 <= capacity < U32_SPAN && IsPow2(capacity)
    ensures var g := Geometry(capacity, SegmentSizeFor(maxPayload));
      && ValidGeometry(g) && MaxPayload(g) >= maxPayload
      && forall s: nat :: s % CACHE_LINE == 0 && s >= FRAME_HEADER_LEN + maxPayload ==> s >= g.segmentSize
  {
    CacheLineIsPow2();
    hide RoundUp, IsPow2;
    RoundUpLeast(FRAME_HEADER_LEN + maxPayload, CACHE_LINE);
  }

  /** `validate_geometry`. */
  ghost predicate ValidateGeometry(capacity: nat, segmentSize: nat) {
    && capacity >= 2 && IsPow2(capacity)
    && segmentSize >= CACHE_LINE && segmentSize % CACHE_LINE == 0 && segmentSize > FRAME_HEADER_LEN
  }

  /** It lets through exactly the geometries the rings are proved for. */
  lemma ValidateExactly(capacity: u32, segmentSize: u32)
    ensures ValidateGeometry(capacity, segmentSize) <==> ValidGeometry(Geometry(capacity, segmentSize))
  {
  }

  function DoubleUntil(p: nat, n: nat): nat
    requires p > 0
    decreases n - p
  {
    if p >= n then p else DoubleUntil(2 * p, n)
  }

  /** `next_power_of_two`. */
  function NextPow2(n: nat): nat { DoubleUntil(1, n) }

  lemma {:induction false} DoubleUntilLeast(p: nat, n: nat, k: nat)
    requires p == Pow2(k)
    ensures IsPow2(DoubleUntil(p, n)) && DoubleUntil(p, n) >= n && DoubleUntil(p, n) >= p
    ensures forall j: nat :: j >= k && Pow2(j) >= n ==> DoubleUntil(p, n) <= Pow2(j)
    decreases n - p
  {
    if p >= n {
      forall j: nat | j >= k ensures p <= Pow2(j) { Pow2Monotone(k, j); }
    } else {
      DoubleUntilLeast(2 * p, n, k + 1);
      assert DoubleUntil(p, n) == DoubleUntil(2 * p, n);
    }
  }

  /** The least power of two at or above `n`. */
  lemma NextPow2Least(n: nat)
    ensures IsPow2(NextPow2(n)) && NextPow2(n) >= n
    ensures forall j: nat :: Pow2(j) >= n ==> NextPow2(n) <= Pow2(j)
  {
    DoubleUntilLeast(1, n, 0);
  }

  // ── Resolving a task ──

  datatype Kind = ByteStream | SlotKind

  datatype Task = Task(kind: Kind, capC2g: nat, capG2c: nat, numSegments: nat, segmentSize: nat, futex: bool)

  datatype Resolved = Resolved(kind: Kind, capacity: u32, segmentSize: u32, capC2g: nat, capG2c: nat, ctlLen: nat, futex: bool)

  /** The slot geometry before it is stored in 32-bit fields. */
  function SlotCount(t: Task): nat { NextPow2(Max(t.numSegments, 2)) }

  function SegmentBytes(t: Task): nat { RoundUp(Max(t.segmentSize, SegmentSizeFor(0)), CACHE_LINE) }

  /** `resolve_shm_layout`. */
  function Resolve(t: Task, page: nat): Resolved
    requires 0 < page <= U64_SPAN
  {
    match t.kind
    case ByteStream =>
      Resolved(ByteStream, 0, 0, RoundUp(Max(t.capC2g, page), page), RoundUp(Max(t.capG2c, page), page),
               RoundUp(SHM_CONTROL_SIZE, page), false)
    case SlotKind =>
      var data := RoundUp(Max(SlotCount(t) * SegmentBytes(t), page), page);
      Resolved(SlotKind, SlotCount(t) % U32_SPAN, SegmentBytes(t) % U32_SPAN, data, data,
               RoundUp(Max(SlotControlSize(SlotCount(t)), page), page), t.futex)
  }

  /** The control length the client computes from the offer. */
  function ClientControlLen(kind: Kind, capacity: u32, page: nat): nat
    requires 0 < page <= U64_SPAN
  {
    if kind.SlotKind? then RoundUp(SlotControlSize(capacity), page) else RoundUp(SHM_CONTROL_SIZE, page)
  }

  /** What both slot-ring constructors check. */
  ghost predicate SlotRingsAccept(controlLen: nat, capacity: nat, segmentSize: nat, c2gLen: nat, g2cLen: nat) {
    && ValidateGeometry(capacity, segmentSize)
    && controlLen >= SlotControlSize(capacity)
    && c2gLen >= capacity * segmentSize && g2cLen >= capacity * segmentSize
  }

  /** What both byte-ring constructors check: the mapped lengths against the advertised ones. */
  predicate ByteRingsAccept(controlLen: nat, advertisedC2g: nat, advertisedG2c: nat, c2gLen: nat, g2cLen: nat) {
    controlLen >= SHM_CONTROL_SIZE && advertisedC2g <= c2gLen && advertisedG2c <= g2cLen
  }

  ghost predicate ValidPage(page: nat) { IsPow2(page) && SHM_CONTROL_SIZE <= page < U32_SPAN }

  /** The slot sizes are exact in their 32-bit fields exactly when the request is not above these. */
  lemma FieldsExactly(t: Task)
    requires t.numSegments < U64_SPAN / 2 && t.segmentSize < U64_SPAN / 2
    ensures SlotCount(t) < U32_SPAN <==> t.numSegments <= U32_SPAN / 2
    ensures SlotCount(t) < U32_SPAN <==> SlotCount(t) % U32_SPAN != 0
    ensures SegmentBytes(t) < U32_SPAN <==> t.segmentSize <= U32_SPAN - CACHE_LINE
    ensures SlotCount(t) >= 2 && IsPow2(SlotCount(t))
    ensures SegmentBytes(t) >= CACHE_LINE && SegmentBytes(t) % CACHE_LINE == 0
  {
    SlotCountField(t);
    SegmentField(t);
  }

  lemma SlotCountField(t: Task)
    ensures SlotCount(t) >= 2 && IsPow2(SlotCount(t))
    ensures SlotCount(t) < U32_SPAN <==> t.numSegments <= U32_SPAN / 2
    ensures SlotCount(t) < U32_SPAN <==> SlotCount(t) % U32_SPAN != 0
  {
    hide Pow2, NextPow2;
    var n := Max(t.numSegments, 2);
    NextPow2Least(n);
    Pow2Values();
    Pow2Add(31, 1);
    Pow2One();
    var k: nat :| Pow2(k) == SlotCount(t);
    assert Pow2(31) == U32_SPAN / 2;
    if k <= 31 { Pow2Monotone(k, 31); } else {
      Pow2Monotone(32, k);
      Pow2Add(32, k - 32);
      MultipleMod(Pow2(k - 32), U32_SPAN);
    }
    if t.numSegments <= U32_SPAN / 2 { assert Pow2(31) >= n; }
  }

  lemma Pow2One()
    ensures Pow2(1) == 2
  {
  }

  lemma SegmentField(t: Task)
    requires t.segmentSize < U64_SPAN / 2
    ensures SegmentBytes(t) >= CACHE_LINE && SegmentBytes(t) % CACHE_LINE == 0
    ensures SegmentBytes(t) < U32_SPAN <==> t.segmentSize <= U32_SPAN - CACHE_LINE
    ensures SegmentBytes(t) >= t.segmentSize
  {
    CacheLineIsPow2();
    hide RoundUp, IsPow2;
    RoundUpLeast(FRAME_HEADER_LEN, CACHE_LINE);
    assert RoundUp(FRAME_HEADER_LEN, CACHE_LINE) <= CACHE_LINE by { assert CACHE_LINE % CACHE_LINE == 0; }
    var v := Max(t.segmentSize, SegmentSizeFor(0));
    RoundUpLeast(v, CACHE_LINE);
    assert (U32_SPAN - CACHE_LINE) % CACHE_LINE == 0;
  }

  lemma CapacityBounds(c: nat, s: nat)
    requires c < U32_SPAN && s < U32_SPAN
    ensures c * s < U64_SPAN - U32_SPAN
  {
    assert c * s <= (U32_SPAN - 1) * (U32_SPAN - 1) by {
      MulLeft(c, U32_SPAN - 1, s);
      MulLeft(s, U32_SPAN - 1, U32_SPAN - 1);
    }
  }

  lemma MulLeft(a: nat, b: nat, c: nat)
    requires a <= b
    ensures a * c <= b * c
  {
  }

  /** For every slot-ring task whose sizes fit their 32-bit fields: the geometry is valid, gateway
      and client compute the same control length, and the constructors on both sides accept. */
  lemma SlotLayoutAgrees(t: Task, page: nat)
    requires t.kind.SlotKind? && ValidPage(page)
    requires t.numSegments <= U32_SPAN / 2 && t.segmentSize <= U32_SPAN - CACHE_LINE
    ensures var l := Resolve(t, page);
      && l.capacity == SlotCount(t) && l.segmentSize == SegmentBytes(t)
      && ValidGeometry(Geometry(l.capacity, l.segmentSize))
      && l.capacity >= t.numSegments && l.segmentSize >= t.segmentSize
      && l.kind == t.kind && l.futex == t.futex
      && l.ctlLen == ClientControlLen(l.kind, l.capacity, page) && l.ctlLen % page == 0
      && SlotRingsAccept(l.ctlLen, l.capacity, l.segmentSize, l.capC2g, l.capG2c)
  {
    hide RoundUp, IsPow2, SlotCount, SegmentBytes, SlotControlSize, Resolve;
    ResolvedSlot(t, page);
  }

  /** Such a task takes no more than it needs: the least power of two of slots, the least segment in whole
      cache lines, and regions rounded up by less than a page. */
  lemma SlotLayoutLeast(t: Task, page: nat)
    requires t.kind.SlotKind? && ValidPage(page)
    requires t.numSegments <= U32_SPAN / 2 && t.segmentSize <= U32_SPAN - CACHE_LINE
    ensures var l := Resolve(t, page);
      && (forall j: nat :: Pow2(j) >= Max(t.numSegments, 2) ==> l.capacity <= Pow2(j))
      && (forall m: nat :: m % CACHE_LINE == 0 && m >= Max(t.segmentSize, CACHE_LINE) ==> l.segmentSize <= m)
      && l.ctlLen < SlotControlSize(l.capacity) + page
      && l.capC2g == l.capG2c && l.capC2g % page == 0 && l.capC2g < Max(l.capacity * l.segmentSize, page) + page
  {
    hide RoundUp, IsPow2, SlotCount, SegmentBytes, SlotControlSize, Resolve;
    ResolvedSlot(t, page);
    SlotCountLeast(t);
    SegmentLeast(t);
  }

  lemma SlotCountLeast(t: Task)
    ensures forall j: nat :: Pow2(j) >= Max(t.numSegments, 2) ==> SlotCount(t) <= Pow2(j)
  {
    hide Pow2;
    NextPow2Least(Max(t.numSegments, 2));
  }

  lemma SegmentLeast(t: Task)
    requires t.segmentSize < U64_SPAN / 2
    ensures forall m: nat :: m % CACHE_LINE == 0 && m >= Max(t.segmentSize, CACHE_LINE) ==> SegmentBytes(t) <= m
  {
    CacheLineIsPow2();
    hide RoundUp, IsPow2;
    RoundUpLeast(FRAME_HEADER_LEN, CACHE_LINE);
    assert RoundUp(FRAME_HEADER_LEN, CACHE_LINE) <= CACHE_LINE by { assert CACHE_LINE % CACHE_LINE == 0; }
    RoundUpLeast(Max(t.segmentSize, SegmentSizeFor(0)), CACHE_LINE);
  }

  /** What a slot task whose sizes fit resolves to. */
  lemma ResolvedSlot(t: Task, page: nat)
    requires t.kind.SlotKind? && ValidPage(page)
    requires t.numSegments <= U32_SPAN / 2 && t.segmentSize <= U32_SPAN - CACHE_LINE
    ensures var l, c, s := Resolve(t, page), SlotCount(t), SegmentBytes(t);
      && l.kind.SlotKind? && l.capacity == c && l.segmentSize == s && l.futex == t.futex
      && ValidGeometry(Geometry(c, s)) && c >= t.numSegments && s >= t.segmentSize
      && l.ctlLen == RoundUp(SlotControlSize(c), page) && l.ctlLen % page == 0
      && SlotControlSize(c) <= l.ctlLen < SlotControlSize(c) + page
      && l.capC2g == l.capG2c && l.capC2g % page == 0 && c * s <= l.capC2g < Max(c * s, page) + page
  {
    hide RoundUp, IsPow2, SlotCount, SegmentBytes, SlotControlSize;
    FieldsExactly(t);
    SegmentField(t);
    SlotCountEnough(t);
    SlotRegionsFit(SlotCount(t), SegmentBytes(t), page);
  }

  lemma SlotCountEnough(t: Task)
    ensures SlotCount(t) >= t.numSegments
  {
    NextPow2Least(Max(t.numSegments, 2));
  }

  /** The mapped control and data regions are large enough, and both sides round alike. */
  lemma SlotRegionsFit(c: nat, s: nat, page: nat)
    requires 2 <= c < U32_SPAN && s < U32_SPAN && ValidPage(page)
    ensures var ctl := RoundUp(Max(SlotControlSize(c), page), page);
      && ctl == RoundUp(SlotControlSize(c), page) && SlotControlSize(c) <= ctl < SlotControlSize(c) + page && ctl % page == 0
    ensures c * s <= RoundUp(Max(c * s, page), page) < Max(c * s, page) + page && RoundUp(Max(c * s, page), page) % page == 0
  {
    hide RoundUp, IsPow2, SlotControlSize;
    CapacityBounds(c, s);
    ControlSizeBounds(c);
    RoundUpMax(SlotControlSize(c), page);
    RoundUpLeast(SlotControlSize(c), page);
    var d := c * s;
    RoundUpLeast(Max(d, page), page);
  }

  lemma ControlSizeBounds(c: nat)
    requires c < U32_SPAN
    ensures 0 < SlotControlSize(c) < U64_SPAN / 2
  {
    hide RoundUp;
    ControlRegions(c);
  }

  /** For every byte-stream task: page-multiple rings, accepted on both sides. */
  lemma ByteLayoutAgrees(t: Task, page: nat)
    requires t.kind.ByteStream? && ValidPage(page) && t.capC2g < U32_SPAN && t.capG2c < U32_SPAN
    ensures var l := Resolve(t, page);
      && l.kind == t.kind && !l.futex
      && l.capC2g >= t.capC2g && l.capG2c >= t.capG2c && l.capC2g % page == 0 && l.capG2c % page == 0
      && l.capC2g < Max(t.capC2g, page) + page && l.capG2c < Max(t.capG2c, page) + page
      && l.ctlLen == ClientControlLen(l.kind, l.capacity, page) == page
      && ByteRingsAccept(l.ctlLen, l.capC2g, l.capG2c, l.capC2g, l.capG2c)
  {
    hide RoundUp, IsPow2;
    RoundUpLeast(Max(t.capC2g, page), page);
    RoundUpLeast(Max(t.capG2c, page), page);
    RoundUpLeast(SHM_CONTROL_SIZE, page);
    PageItself(page);
  }

  lemma PageItself(page: nat)
    requires ValidPage(page)
    ensures RoundUp(SHM_CONTROL_SIZE, page) == page
  {
    hide RoundUp;
    RoundUpLeast(SHM_CONTROL_SIZE, page);
    assert page % page == 0;
  }

  /** One segment more than half the range: the count rounds up to 2^32, its field to 0, and the
      constructors turn the layout down. */
  lemma TooManySegments(t: Task, page: nat)
    requires t.kind.SlotKind? && ValidPage(page) && U32_SPAN / 2 < t.numSegments < U64_SPAN / 2
    ensures Resolve(t, page).capacity == 0
    ensures !ValidateGeometry(Resolve(t, page).capacity, Resolve(t, page).segmentSize)
  {
    hide RoundUp, NextPow2;
    SlotCountField(t);
  }
}
