/** The fixed-slot ring: geometry, the shared control page and segment array, the two window
    tests, and what it means for shared memory to hold a queue of frames. */
module SlotRing {
  import opened Words
  import opened Frames

  const CACHE_LINE: nat := 64

  datatype Geometry = Geometry(capacity: nat, segmentSize: nat)

  /** The geometries `validate_geometry` accepts, in the 32-bit range of the header fields. */
  ghost predicate ValidGeometry(g: Geometry) {
    && 2 <= g.capacity < U32_SPAN
    && IsPow2(g.capacity)
    && CACHE_LINE <= g.segmentSize < U32_SPAN
    && g.segmentSize % CACHE_LINE == 0
    && g.segmentSize > FRAME_HEADER_LEN
  }

  function MaxPayload(g: Geometry): nat
    requires ValidGeometry(g)
  {
    g.segmentSize - FRAME_HEADER_LEN
  }

  /** `pos & mask`: the slot a 64-bit position falls on. */
  function SlotIndex(g: Geometry, pos: u64): (i: nat)
    requires ValidGeometry(g)
    ensures i == pos % g.capacity && i < g.capacity
  {
    assert And(pos, g.capacity - 1) == pos % g.capacity by {
      var k: nat :| Pow2(k) == g.capacity;
      AndLowMask(pos, k);
    }
    And(pos, g.capacity - 1)
  }

  /** Everything the two processes share for one ring. */
  datatype Shared = Shared(writePos: u64, readPos: u64, seqs: seq<u64>, slots: seq<seq<byte>>)

  predicate Shaped(g: Geometry, sh: Shared) {
    && |sh.seqs| == g.capacity
    && |sh.slots| == g.capacity
    && forall i :: 0 <= i < g.capacity ==> |sh.slots[i]| == g.segmentSize
  }

  // ── The two window tests ──

  datatype Window = Free | Occupied | Corrupt

  /** The producer's reading of a slot's `seq` word at its position. */
  function ProducerWindow(g: Geometry, seqWord: u64, pos: u64): Window {
    var diff := AsI64(WrappingSub(seqWord, pos));
    if diff == 0 then Free
    else if diff == 1 - g.capacity then Occupied
    else Corrupt
  }

  /** The consumer's reading: the slot holds the frame of this position. */
  predicate IsReady(seqWord: u64, pos: u64) {
    AsI64(WrappingSub(seqWord, WrappingAdd(pos, 1))) == 0
  }

  /** What a `seq` word says of position `pos`, for any word a peer may have stored: its own number marks
      the slot free, the number of one lap back the slot still holding that lap's frame. */
  function SlotWindow(g: Geometry, seqWord: u64, pos: u64): Window
    requires g.capacity < U64_SPAN
  {
    if seqWord == pos then Free
    else if seqWord == (pos + 1 + (U64_SPAN - g.capacity)) % U64_SPAN then Occupied
    else Corrupt
  }

  /** The number after its own marks the slot as holding the frame of position `pos`. */
  predicate MarksReady(seqWord: u64, pos: u64) { seqWord == (pos + 1) % U64_SPAN }

  /** The signed comparisons read the words so. */
  lemma WindowsExactly(g: Geometry, seqWord: u64, pos: u64)
    requires 2 <= g.capacity < U32_SPAN
    ensures ProducerWindow(g, seqWord, pos) == SlotWindow(g, seqWord, pos)
    ensures IsReady(seqWord, pos) <==> MarksReady(seqWord, pos)
  {
  }

  // ── Shared memory holding a queue ──

  /** Slot of absolute position `p`, counted without wrap-around. */
  function SlotOf(g: Geometry, p: nat): (i: nat)
    requires g.capacity > 0
    ensures i < g.capacity
  {
    p % g.capacity
  }

  ghost predicate ReadyAt(g: Geometry, sh: Shared, p: nat, f: Frame)
    requires g.capacity > 0 && Shaped(g, sh)
  {
    && sh.seqs[SlotOf(g, p)] == (p + 1) % U64_SPAN
    && |Encode(f)| <= g.segmentSize
    && sh.slots[SlotOf(g, p)][..|Encode(f)|] == Encode(f)
  }

  ghost predicate FreeAt(g: Geometry, sh: Shared, p: nat)
    requires g.capacity > 0 && Shaped(g, sh)
  {
    sh.seqs[SlotOf(g, p)] == p % U64_SPAN
  }

  ghost predicate Holds(g: Geometry, sh: Shared, published: seq<Frame>, released: nat)
    requires ValidGeometry(g)
  {
    && Shaped(g, sh)
    && released <= |published| <= released + g.capacity
    && AllFit(published, MaxPayload(g))
    && (forall p :: released <= p < |published| ==> ReadyAt(g, sh, p, published[p]))
    && (forall p :: |published| <= p < released + g.capacity ==> FreeAt(g, sh, p))
  }

  /** A wrapped position selects the slot of the unwrapped one. */
  lemma IndexOfWrapped(g: Geometry, p: nat)
    requires ValidGeometry(g)
    ensures SlotIndex(g, p % U64_SPAN) == SlotOf(g, p)
  {
    Pow2Divides(g.capacity);
    ModOfMod(p, U64_SPAN, g.capacity);
  }

  /** Positions of one window fall on distinct slots. */
  lemma SlotsDistinct(g: Geometry, p: nat, q: nat)
    requires g.capacity > 0 && p != q && p < q + g.capacity && q < p + g.capacity
    ensures SlotOf(g, p) != SlotOf(g, q)
  {
    if p < q { ModDistinct(p, q, g.capacity); } else { ModDistinct(q, p, g.capacity); }
  }

  lemma SlotPeriodic(g: Geometry, p: nat)
    requires g.capacity > 0
    ensures SlotOf(g, p + g.capacity) == SlotOf(g, p)
  {
    ModPeriod(p, g.capacity);
  }

  /** Differences of wrapped positions are the differences of the positions. */
  lemma WrapDifference(a: nat, b: nat)
    requires a <= b + U32_SPAN && b <= a + U32_SPAN
    ensures AsI64(WrappingSub(a % U64_SPAN, b % U64_SPAN)) == a - b
  {
    var x, y := a / U64_SPAN, b / U64_SPAN;
    assert a % U64_SPAN - b % U64_SPAN == a - b + U64_SPAN * (y - x);
  }

  lemma WrapSuccessor(p: nat)
    ensures WrappingAdd(p % U64_SPAN, 1) == (p + 1) % U64_SPAN
  {
  }

  /** On a ring holding a queue the producer's window test is exact: free when a slot is free,
      full when `capacity` frames are unreleased, and never corrupt. */
  lemma ProducerWindowExact(g: Geometry, sh: Shared, published: seq<Frame>, released: nat)
    requires ValidGeometry(g) && Holds(g, sh, published, released)
    ensures ProducerWindow(g, sh.seqs[SlotIndex(g, |published| % U64_SPAN)], |published| % U64_SPAN)
         == if |published| < released + g.capacity then Free else Occupied
  {
    hide Encode, WrappingSub, AsI64, SlotOf;
    var p := |published|;
    IndexOfWrapped(g, p);
    if p < released + g.capacity {
      assert FreeAt(g, sh, p);
      WrapDifference(p, p);
    } else {
      SlotPeriodic(g, released);
      assert ReadyAt(g, sh, released, published[released]);
      WrapDifference(released + 1, p);
    }
  }

  /** The consumer's window test is exact: ready when an unreleased frame exists. */
  lemma ConsumerWindowExact(g: Geometry, sh: Shared, published: seq<Frame>, released: nat)
    requires ValidGeometry(g) && Holds(g, sh, published, released)
    ensures IsReady(sh.seqs[SlotIndex(g, released % U64_SPAN)], released % U64_SPAN)
       <==> released < |published|
  {
    hide Encode, WrappingSub, WrappingAdd, AsI64, SlotOf;
    IndexOfWrapped(g, released);
    WrapSuccessor(released);
    if released < |published| {
      assert ReadyAt(g, sh, released, published[released]);
      WrapDifference(released + 1, released + 1);
    } else {
      assert FreeAt(g, sh, released);
      WrapDifference(released, released + 1);
    }
  }

  /** The positions play no part in what the slots hold. */
  lemma PositionsApart(g: Geometry, sh: Shared, w: u64, r: u64, published: seq<Frame>, released: nat)
    requires ValidGeometry(g) && Holds(g, sh, published, released)
    ensures Holds(g, sh.(writePos := w, readPos := r), published, released)
  {
    hide Encode, SlotOf;
    var sh' := sh.(writePos := w, readPos := r);
    forall p | released <= p < |published| ensures ReadyAt(g, sh', p, published[p]) {
      assert ReadyAt(g, sh, p, published[p]);
    }
    forall p | |published| <= p < released + g.capacity ensures FreeAt(g, sh', p) {
      assert FreeAt(g, sh, p);
    }
  }

  /** Marking the written slot ready publishes its frame. */
  lemma PublishHolds(g: Geometry, sh: Shared, published: seq<Frame>, released: nat, f: Frame)
    requires ValidGeometry(g) && Holds(g, sh, published, released)
    requires |published| < released + g.capacity && Fits(f, MaxPayload(g))
    requires sh.slots[SlotOf(g, |published|)][..|Encode(f)|] == Encode(f)
    ensures Holds(g, sh.(seqs := sh.seqs[SlotOf(g, |published|) := (|published| + 1) % U64_SPAN]),
                  published + [f], released)
  {
    hide Encode;
    var P := |published|;
    var sh' := sh.(seqs := sh.seqs[SlotOf(g, P) := (P + 1) % U64_SPAN]);
    forall p | released <= p < P + 1 ensures ReadyAt(g, sh', p, (published + [f])[p]) {
      if p < P {
        SlotsDistinct(g, p, P);
        assert ReadyAt(g, sh, p, published[p]);
      }
    }
    forall p | P + 1 <= p < released + g.capacity ensures FreeAt(g, sh', p) {
      SlotsDistinct(g, p, P);
      assert FreeAt(g, sh, p);
    }
  }

  /** Storing the next lap's number into the oldest ready slot releases it. */
  lemma ReleaseHolds(g: Geometry, sh: Shared, published: seq<Frame>, released: nat)
    requires ValidGeometry(g) && Holds(g, sh, published, released) && released < |published|
    ensures Holds(g, sh.(seqs := sh.seqs[SlotOf(g, released) := (released + g.capacity) % U64_SPAN]),
                  published, released + 1)
  {
    hide Encode;
    var sh' := sh.(seqs := sh.seqs[SlotOf(g, released) := (released + g.capacity) % U64_SPAN]);
    forall p | released + 1 <= p < |published| ensures ReadyAt(g, sh', p, published[p]) {
      SlotsDistinct(g, p, released);
      assert ReadyAt(g, sh, p, published[p]);
    }
    forall p | |published| <= p < released + 1 + g.capacity ensures FreeAt(g, sh', p) {
      if p == released + g.capacity {
        SlotPeriodic(g, released);
      } else {
        SlotsDistinct(g, p, released);
        assert FreeAt(g, sh, p);
      }
    }
  }

  /** Bytes written into the producer's free slot disturb no queued frame. */
  lemma WriteFreeSlotHolds(g: Geometry, sh: Shared, published: seq<Frame>, released: nat, bytes: seq<byte>)
    requires ValidGeometry(g) && Holds(g, sh, published, released)
    requires |published| < released + g.capacity && |bytes| == g.segmentSize
    ensures Holds(g, sh.(slots := sh.slots[SlotOf(g, |published|) := bytes]), published, released)
  {
    hide Encode;
    var sh' := sh.(slots := sh.slots[SlotOf(g, |published|) := bytes]);
    forall p | released <= p < |published| ensures ReadyAt(g, sh', p, published[p]) {
      SlotsDistinct(g, p, |published|);
      assert ReadyAt(g, sh, p, published[p]);
    }
    forall p | |published| <= p < released + g.capacity ensures FreeAt(g, sh', p) {
      assert FreeAt(g, sh, p);
    }
  }
}
