/** The slot ring's operations on mapped memory: positions, a `seq` array and one flat segment
    array. Their contracts hold for any contents of the shared words (a peer may have written
    them); on memory that holds a queue they are queue operations. */
module SlotObject {
  import opened Words
  import opened Frames
  import opened SlotRing
  import opened Copies
  import opened Options

  datatype PushOutcome = Full | Pushed(wasEmpty: bool) | FrameTooLarge | RingCorrupt

  datatype ReservedSlot = ReservedSlot(pos: u64, idx: nat)

  datatype Reservation = Reserved(slot: ReservedSlot) | NoRoom | BadRing

  // ── Effects on shared memory ──

  function AfterPush(g: Geometry, sh: Shared, f: Frame): Shared
    requires ValidGeometry(g) && Shaped(g, sh) && |f.payload| <= MaxPayload(g)
  {
    var i := SlotIndex(g, sh.writePos);
    Shared(WrappingAdd(sh.writePos, 1), sh.readPos,
           sh.seqs[i := WrappingAdd(sh.writePos, 1)],
           sh.slots[i := Splice(sh.slots[i], 0, Encode(f))])
  }

  function AfterCommit(g: Geometry, sh: Shared, slot: ReservedSlot, id: u32, len: nat): Shared
    requires ValidGeometry(g) && Shaped(g, sh) && len <= MaxPayload(g) && slot.idx < g.capacity
  {
    Shared(WrappingAdd(slot.pos, 1), sh.readPos,
           sh.seqs[slot.idx := WrappingAdd(slot.pos, 1)],
           sh.slots[slot.idx := Splice(sh.slots[slot.idx], 0, EncodeHeader(len, id))])
  }

  /** The frame a pop reads at `read_pos`, its advertised length clamped to the slot. */
  function FrontFrame(g: Geometry, sh: Shared): Option<Frame>
    requires ValidGeometry(g) && Shaped(g, sh)
  {
    var i := SlotIndex(g, sh.readPos);
    if !MarksReady(sh.seqs[i], sh.readPos) then None
    else
      var (len, id) := DecodeHeader(sh.slots[i][..FRAME_HEADER_LEN]);
      Some(Frame(id, sh.slots[i][FRAME_HEADER_LEN..FRAME_HEADER_LEN + Min(len, MaxPayload(g))]))
  }

  /** On any memory a pop returns something exactly from a slot marked ready: the id its header names, and
      as many of the bytes behind it as the header announces or the slot has. */
  lemma FrontFrameExactly(g: Geometry, sh: Shared)
    requires ValidGeometry(g) && Shaped(g, sh)
    ensures var i := SlotIndex(g, sh.readPos);
      var (len, id) := DecodeHeader(sh.slots[i][..FRAME_HEADER_LEN]);
      && (FrontFrame(g, sh).Some? <==> sh.seqs[i] == (sh.readPos + 1) % U64_SPAN)
      && (FrontFrame(g, sh).Some? ==>
            var f := FrontFrame(g, sh).value;
            && f.id == id && f.payload <= sh.slots[i][FRAME_HEADER_LEN..]
            && |f.payload| <= len && (|f.payload| == len || FRAME_HEADER_LEN + |f.payload| == g.segmentSize))
  {
    hide SlotIndex, DecodeHeader;
    var slot := sh.slots[SlotIndex(g, sh.readPos)];
    var n := Min(DecodeHeader(slot[..FRAME_HEADER_LEN]).0, MaxPayload(g));
    assert slot[FRAME_HEADER_LEN..FRAME_HEADER_LEN + n] == slot[FRAME_HEADER_LEN..][..n];
  }

  function AfterRelease(g: Geometry, sh: Shared): Shared
    requires ValidGeometry(g) && Shaped(g, sh)
  {
    var i := SlotIndex(g, sh.readPos);
    sh.(seqs := sh.seqs[i := WrappingAdd(sh.readPos, g.capacity)], readPos := WrappingAdd(sh.readPos, 1))
  }

  // ── Effects on the queue ──

  /** Shared memory between whole operations: `published[released..]` is queued. */
  ghost predicate Queued(g: Geometry, sh: Shared, published: seq<Frame>, released: nat)
    requires ValidGeometry(g)
  {
    && Holds(g, sh, published, released)
    && sh.writePos == |published| % U64_SPAN
    && sh.readPos == released % U64_SPAN
  }

  lemma QueuedBounds(g: Geometry, sh: Shared, published: seq<Frame>, released: nat)
    requires ValidGeometry(g) && Queued(g, sh, published, released)
    ensures released <= |published| <= released + g.capacity
    ensures Holds(g, sh, published, released)
    ensures sh.writePos == |published| % U64_SPAN && sh.readPos == released % U64_SPAN
    ensures sh.readPos == sh.writePos <==> released == |published|
  {
    WrapDifference(|published|, released);
  }

  lemma InitiallyEmpty(g: Geometry, sh: Shared)
    requires ValidGeometry(g) && Shaped(g, sh) && sh.writePos == 0 && sh.readPos == 0
    requires forall i :: 0 <= i < g.capacity ==> sh.seqs[i] == i
    ensures Queued(g, sh, [], 0)
  {
    forall p | 0 <= p < g.capacity ensures FreeAt(g, sh, p) {
      DivModUnique(p, g.capacity, 0, p);
      DivModUnique(p, U64_SPAN, 0, p);
    }
  }

  lemma FillKeepsQueue(g: Geometry, sh: Shared, published: seq<Frame>, released: nat, slot: seq<byte>)
    requires ValidGeometry(g) && Queued(g, sh, published, released)
    requires |published| < released + g.capacity && |slot| == g.segmentSize
    ensures Queued(g, sh.(slots := sh.slots[SlotIndex(g, sh.writePos) := slot]), published, released)
  {
    hide SlotIndex, SlotOf;
    IndexOfWrapped(g, |published|);
    WriteFreeSlotHolds(g, sh, published, released, slot);
  }

  lemma PushEnqueues(g: Geometry, sh: Shared, published: seq<Frame>, released: nat, f: Frame)
    requires ValidGeometry(g) && Queued(g, sh, published, released)
    requires Fits(f, MaxPayload(g)) && |published| < released + g.capacity
    ensures Queued(g, AfterPush(g, sh, f), published + [f], released)
  {
    hide Encode, SlotOf, SlotIndex, WrappingAdd;
    var P := |published|;
    var i := SlotOf(g, P);
    IndexOfWrapped(g, P);
    WrapSuccessor(P);
    var slot := Splice(sh.slots[i], 0, Encode(f));
    assert slot[..|Encode(f)|] == Encode(f);
    WriteFreeSlotHolds(g, sh, published, released, slot);
    var sh1 := sh.(slots := sh.slots[i := slot]);
    PublishHolds(g, sh1, published, released, f);
    PositionsApart(g, sh1.(seqs := sh1.seqs[i := (P + 1) % U64_SPAN]), (P + 1) % U64_SPAN, sh.readPos,
                   published + [f], released);
  }

  /** The frame whose payload sits in a slot. */
  function InPlaceFrame(slot: seq<byte>, id: u32, len: nat): Frame
    requires FRAME_HEADER_LEN + len <= |slot|
  {
    Frame(id, slot[FRAME_HEADER_LEN..FRAME_HEADER_LEN + len])
  }

  /** Committing bytes built in place has the effect of pushing a frame of those bytes. */
  lemma CommitIsPush(g: Geometry, sh: Shared, id: u32, len: nat)
    requires ValidGeometry(g) && Shaped(g, sh) && len <= MaxPayload(g)
    ensures AfterCommit(g, sh, ReservedSlot(sh.writePos, SlotIndex(g, sh.writePos)), id, len)
         == AfterPush(g, sh, InPlaceFrame(sh.slots[SlotIndex(g, sh.writePos)], id, len))
  {
    hide EncodeHeader, SlotIndex;
    var i := SlotIndex(g, sh.writePos);
    var s := sh.slots[i];
    assert len % U32_SPAN == len;
    assert Splice(s, 0, EncodeHeader(len, id))
        == Splice(s, 0, EncodeHeader(len, id) + s[FRAME_HEADER_LEN..FRAME_HEADER_LEN + len]);
  }

  lemma FrontIsOldest(g: Geometry, sh: Shared, published: seq<Frame>, released: nat)
    requires ValidGeometry(g) && Queued(g, sh, published, released)
    ensures FrontFrame(g, sh) == if released < |published| then Some(published[released]) else None
    ensures released < |published| ==>
              Encode(published[released]) <= sh.slots[SlotIndex(g, sh.readPos)]
  {
    hide Encode, SlotOf, SlotIndex, IsReady, MarksReady, DecodeHeader;
    ConsumerWindowExact(g, sh, published, released);
    WindowsExactly(g, sh.seqs[SlotIndex(g, sh.readPos)], sh.readPos);
    if released < |published| {
      IndexOfWrapped(g, released);
      assert ReadyAt(g, sh, released, published[released]);
      EncodedFront(sh.slots[SlotIndex(g, sh.readPos)], published[released]);
    }
  }

  lemma EncodedFront(slot: seq<byte>, f: Frame)
    requires |f.payload| < U32_SPAN && |Encode(f)| <= |slot| && slot[..|Encode(f)|] == Encode(f)
    ensures DecodeHeader(slot[..FRAME_HEADER_LEN]) == (|f.payload|, f.id)
    ensures slot[FRAME_HEADER_LEN..FRAME_HEADER_LEN + |f.payload|] == f.payload
  {
    hide EncodeHeader, DecodeHeader;
    assert |f.payload| % U32_SPAN == |f.payload|;
    assert slot[..FRAME_HEADER_LEN] == slot[..|Encode(f)|][..FRAME_HEADER_LEN] == EncodeHeader(|f.payload|, f.id);
    assert slot[FRAME_HEADER_LEN..FRAME_HEADER_LEN + |f.payload|] == slot[..|Encode(f)|][FRAME_HEADER_LEN..];
    HeaderRoundTrip(|f.payload|, f.id);
  }

  lemma ReleaseDequeues(g: Geometry, sh: Shared, published: seq<Frame>, released: nat)
    requires ValidGeometry(g) && Queued(g, sh, published, released) && released < |published|
    ensures Queued(g, AfterRelease(g, sh), published, released + 1)
  {
    hide Encode, SlotOf, SlotIndex;
    IndexOfWrapped(g, released);
    assert WrappingAdd(released % U64_SPAN, g.capacity) == (released + g.capacity) % U64_SPAN by {
      ModAdd(released, g.capacity, U64_SPAN);
    }
    WrapSuccessor(released);
    ReleaseHolds(g, sh, published, released);
    PositionsApart(g, sh.(seqs := sh.seqs[SlotOf(g, released) := (released + g.capacity) % U64_SPAN]),
                   sh.writePos, (released + 1) % U64_SPAN, published, released + 1);
  }

  // ── The flat segment array ──

  lemma SlotInside(i: nat, n: nat, seg: nat)
    requires i < n
    ensures i * seg + seg == (i + 1) * seg <= n * seg
  {
    assert (i + 1) * seg == i * seg + seg;
    assert (n - (i + 1)) * seg >= 0;
  }

  function SlotAt(g: Geometry, data: seq<byte>, i: nat): (slot: seq<byte>)
    requires |data| == g.capacity * g.segmentSize && i < g.capacity
    ensures |slot| == g.segmentSize
  {
    SlotInside(i, g.capacity, g.segmentSize);
    data[i * g.segmentSize..i * g.segmentSize + g.segmentSize]
  }

  /** The segment array cut into its slots. */
  ghost function Slots(g: Geometry, data: seq<byte>): (r: seq<seq<byte>>)
    requires |data| == g.capacity * g.segmentSize
    ensures |r| == g.capacity && forall i :: 0 <= i < g.capacity ==> r[i] == SlotAt(g, data, i)
  {
    seq(g.capacity, i requires 0 <= i < g.capacity => SlotAt(g, data, i))
  }

  lemma SlotSlice(g: Geometry, data: seq<byte>, i: nat, start: nat, n: nat)
    requires |data| == g.capacity * g.segmentSize && i < g.capacity && start + n <= g.segmentSize
    ensures i * g.segmentSize + start + n <= |data|
    ensures SlotAt(g, data, i)[start..start + n] == data[i * g.segmentSize + start..i * g.segmentSize + start + n]
  {
    SlotInside(i, g.capacity, g.segmentSize);
    SliceOfSlice(data, i * g.segmentSize, i * g.segmentSize + g.segmentSize, start, n);
  }

  /** A copy that stays inside slot `i` leaves every other slot. */
  lemma SpliceOtherSlot(g: Geometry, data: seq<byte>, i: nat, k: nat, bytes: seq<byte>, j: nat)
    requires |data| == g.capacity * g.segmentSize && i < g.capacity && k + |bytes| <= g.segmentSize
    requires j < g.capacity && j != i
    ensures i * g.segmentSize + k + |bytes| <= |data|
    ensures SlotAt(g, Splice(data, i * g.segmentSize + k, bytes), j) == SlotAt(g, data, j)
  {
    hide Splice;
    SlotsApart(g.capacity, g.segmentSize, i, j);
    SpliceAway(data, i * g.segmentSize, k, bytes, j * g.segmentSize, g.segmentSize);
  }

  lemma SlotsApart(n: nat, seg: nat, i: nat, j: nat)
    requires i < n && j < n && i != j
    ensures 0 <= i * seg && 0 <= j * seg && i * seg + seg <= n * seg && j * seg + seg <= n * seg
    ensures j * seg + seg <= i * seg || i * seg + seg <= j * seg
  {
    SlotInside(i, n, seg);
    SlotInside(j, n, seg);
    if j < i { SlotInside(j, i, seg); } else { SlotInside(i, j, seg); }
  }

  lemma SpliceAway(data: seq<byte>, a: nat, k: nat, bytes: seq<byte>, b: nat, seg: nat)
    requires a + seg <= |data| && b + seg <= |data| && k + |bytes| <= seg && (b + seg <= a || a + seg <= b)
    ensures Splice(data, a + k, bytes)[b..b + seg] == data[b..b + seg]
  {
    hide Splice;
    SpliceOutside(data, a + k, bytes, b, b + seg);
  }

  lemma SpliceSameSlot(g: Geometry, data: seq<byte>, i: nat, k: nat, bytes: seq<byte>)
    requires |data| == g.capacity * g.segmentSize && i < g.capacity && k + |bytes| <= g.segmentSize
    ensures i * g.segmentSize + k + |bytes| <= |data|
    ensures SlotAt(g, Splice(data, i * g.segmentSize + k, bytes), i) == Splice(SlotAt(g, data, i), k, bytes)
  {
    hide Splice;
    SlotInside(i, g.capacity, g.segmentSize);
    SpliceInside(data, i * g.segmentSize, i * g.segmentSize + g.segmentSize, k, bytes);
  }

  /** A copy that stays inside slot `i` changes that slot alone. */
  lemma SpliceOneSlot(g: Geometry, data: seq<byte>, i: nat, k: nat, bytes: seq<byte>)
    requires |data| == g.capacity * g.segmentSize && i < g.capacity && k + |bytes| <= g.segmentSize
    ensures i * g.segmentSize + k + |bytes| <= |data|
    ensures Slots(g, Splice(data, i * g.segmentSize + k, bytes))
         == Slots(g, data)[i := Splice(SlotAt(g, data, i), k, bytes)]
  {
    hide SlotAt, Splice, Slots;
    SpliceSameSlot(g, data, i, k, bytes);
    var data' := Splice(data, i * g.segmentSize + k, bytes);
    var x, y := Slots(g, data'), Slots(g, data)[i := Splice(SlotAt(g, data, i), k, bytes)];
    forall j | 0 <= j < g.capacity ensures x[j] == y[j] {
      if j != i { SpliceOtherSlot(g, data, i, k, bytes, j); }
    }
  }

  lemma EncodedParts(f: Frame)
    requires |f.payload| < U32_SPAN
    ensures Encode(f) == EncodeHeader(|f.payload|, f.id) + f.payload
  {
    hide EncodeHeader;
    assert |f.payload| % U32_SPAN == |f.payload|;
  }

  // ── The operations ──

  class Ring {
    const g: Geometry
    var writePos: u64
    var readPos: u64
    const seqs: array<u64>
    const data: array<byte>
    /** History of an honest ring: the frames ever published and how many were released. */
    ghost var published: seq<Frame>
    ghost var released: nat

    ghost predicate Mapped() {
      && ValidGeometry(g)
      && seqs.Length == g.capacity
      && data.Length == g.capacity * g.segmentSize
      && seqs as object != data as object
    }

    ghost function View(): (sh: Shared)
      requires Mapped()
      reads this, seqs, data
      ensures Shaped(g, sh)
    {
      Shared(writePos, readPos, seqs[..], Slots(g, data[..]))
    }

    /** No peer has tampered: memory holds the queue of the history. */
    ghost predicate Honest()
      reads this, seqs, data
    {
      Mapped() && Queued(g, View(), published, released)
    }

    ghost function Queue(): seq<Frame>
      reads this
      requires released <= |published|
    {
      published[released..]
    }

    /** `init_ring_control`: zero positions, and slot `i` free for position `i`. */
    constructor (g: Geometry)
      requires ValidGeometry(g)
      ensures this.g == g && Honest() && fresh(seqs) && fresh(data)
      ensures published == [] && released == 0
    {
      this.g := g;
      writePos, readPos := 0, 0;
      seqs := new u64[g.capacity];
      data := new byte[g.capacity * g.segmentSize];
      published, released := [], 0;
      new;
      for i := 0 to g.capacity
        modifies seqs
        invariant forall j :: 0 <= j < i ==> seqs[j] == j
      {
        seqs[i] := i;
      }
      InitiallyEmpty(g, View());
    }

    /** Copy a frame's header and payload into slot `idx`. */
    method WriteFrame(idx: nat, id: u32, payload: seq<byte>)
      requires Mapped() && idx < g.capacity && |payload| <= MaxPayload(g)
      modifies data
      ensures Slots(g, data[..]) == old(Slots(g, data[..])[idx := Splice(SlotAt(g, data[..], idx), 0, Encode(Frame(id, payload)))])
    {
      hide Encode, EncodeHeader, Splice, Slots, SlotAt;
      SlotInside(idx, g.capacity, g.segmentSize);
      var off := idx * g.segmentSize;
      ghost var was := data[..];
      CopyIn(data, off, EncodeHeader(|payload|, id));
      CopyIn(data, off + FRAME_HEADER_LEN, payload);
      EncodedParts(Frame(id, payload));
      TwoSplices(was, off, EncodeHeader(|payload|, id), payload);
      SpliceOneSlot(g, was, idx, 0, Encode(Frame(id, payload)));
    }

    method TryPush(id: u32, payload: seq<byte>) returns (r: PushOutcome)
      requires Mapped()
      modifies this, seqs, data
      ensures r.FrameTooLarge? <==> |payload| > MaxPayload(g)
      ensures !r.FrameTooLarge? ==>
        var w := SlotWindow(g, old(seqs[SlotIndex(g, writePos)]), old(writePos));
        (r.Full? <==> w == Occupied) && (r.RingCorrupt? <==> w == Corrupt) && (r.Pushed? <==> w == Free)
      ensures r.Pushed? ==> View() == AfterPush(g, old(View()), Frame(id, payload))
      ensures r.Pushed? ==> r.wasEmpty == (old(readPos) == old(writePos))
      ensures !r.Pushed? ==> View() == old(View())
      ensures released == old(released)
      ensures published == if r.Pushed? then old(published) + [Frame(id, payload)] else old(published)
      ensures old(Honest()) ==>
        && Honest() && !r.RingCorrupt?
        && (r.Full? <==> !r.FrameTooLarge? && |old(Queue())| == g.capacity)
        && (r.Pushed? ==> (r.wasEmpty <==> old(Queue()) == []))
    {
      if |payload| > MaxPayload(g) { return FrameTooLarge; }
      hide Encode, EncodeHeader, ProducerWindow, SlotWindow, SlotIndex, WrappingAdd, Queued, Splice, Slots;
      var pos := writePos;
      var idx := SlotIndex(g, pos);
      ghost var sh, f := View(), Frame(id, payload);
      if Honest() {
        QueuedBounds(g, sh, published, released);
        ProducerWindowExact(g, sh, published, released);
      }
      WindowsExactly(g, seqs[idx], pos);
      match ProducerWindow(g, seqs[idx], pos)
      case Occupied => return Full;
      case Corrupt => return RingCorrupt;
      case Free =>
      var wasEmpty := readPos == pos;
      WriteFrame(idx, id, payload);
      seqs[idx] := WrappingAdd(pos, 1);
      writePos := WrappingAdd(pos, 1);
      published := published + [f];
      r := Pushed(wasEmpty);
      assert View() == AfterPush(g, sh, f);
      if old(Honest()) { PushEnqueues(g, sh, old(published), released, f); }
    }

    // ── In-place production ──

    method Reserve() returns (r: Reservation)
      requires Mapped()
      ensures var w := SlotWindow(g, seqs[SlotIndex(g, writePos)], writePos);
              && (r.NoRoom? <==> w == Occupied) && (r.BadRing? <==> w == Corrupt)
              && (w == Free ==> r == Reserved(ReservedSlot(writePos, SlotIndex(g, writePos))))
      ensures Honest() ==> !r.BadRing? && (r.NoRoom? <==> |Queue()| == g.capacity)
    {
      hide Queued, ProducerWindow, SlotWindow, SlotIndex;
      var pos := writePos;
      var idx := SlotIndex(g, pos);
      if Honest() {
        QueuedBounds(g, View(), published, released);
        ProducerWindowExact(g, View(), published, released);
      }
      WindowsExactly(g, seqs[idx], pos);
      match ProducerWindow(g, seqs[idx], pos)
      case Occupied => r := NoRoom;
      case Corrupt => r := BadRing;
      case Free => r := Reserved(ReservedSlot(pos, idx));
    }

    /** The caller writes payload bytes of a slot it reserved. */
    method Fill(slot: ReservedSlot, j: nat, bytes: seq<byte>)
      requires Mapped() && slot == ReservedSlot(writePos, SlotIndex(g, writePos)) && j + |bytes| <= MaxPayload(g)
      requires Honest() ==> |Queue()| < g.capacity
      modifies data
      ensures View() == old(View()).(slots := old(View()).slots[slot.idx :=
                Splice(old(View()).slots[slot.idx], FRAME_HEADER_LEN + j, bytes)])
      ensures old(Honest()) ==> Honest()
    {
      hide Encode, Splice, Slots, SlotAt, SlotIndex, Queued;
      SlotInside(slot.idx, g.capacity, g.segmentSize);
      ghost var sh := View();
      SpliceOneSlot(g, data[..], slot.idx, FRAME_HEADER_LEN + j, bytes);
      CopyIn(data, slot.idx * g.segmentSize + (FRAME_HEADER_LEN + j), bytes);
      assert View().slots == Slots(g, data[..]);
      if old(Honest()) {
        FillKeepsQueue(g, sh, published, released, Splice(sh.slots[slot.idx], FRAME_HEADER_LEN + j, bytes));
      }
    }

    method WriteHeader(idx: nat, len: u32, id: u32)
      requires Mapped() && idx < g.capacity
      modifies data
      ensures Slots(g, data[..]) == old(Slots(g, data[..])[idx := Splice(SlotAt(g, data[..], idx), 0, EncodeHeader(len, id))])
    {
      hide EncodeHeader, Splice, Slots, SlotAt;
      SlotInside(idx, g.capacity, g.segmentSize);
      SpliceOneSlot(g, data[..], idx, 0, EncodeHeader(len, id));
      CopyIn(data, idx * g.segmentSize, EncodeHeader(len, id));
    }

    method Commit(slot: ReservedSlot, id: u32, len: nat) returns (r: PushOutcome)
      requires Mapped() && slot == ReservedSlot(writePos, SlotIndex(g, writePos))
      requires Honest() ==> |Queue()| < g.capacity
      modifies this, seqs, data
      ensures r.FrameTooLarge? <==> len > MaxPayload(g)
      ensures r.FrameTooLarge? ==> View() == old(View()) && published == old(published)
      ensures !r.FrameTooLarge? ==>
        && r == Pushed(old(readPos) == slot.pos)
        && View() == AfterPush(g, old(View()), InPlaceFrame(old(View()).slots[slot.idx], id, len))
        && published == old(published) + [InPlaceFrame(old(View()).slots[slot.idx], id, len)]
      ensures released == old(released)
      ensures old(Honest()) ==> Honest() && (r.Pushed? ==> (r.wasEmpty <==> old(Queue()) == []))
    {
      if len > MaxPayload(g) { return FrameTooLarge; }
      hide Encode, EncodeHeader, SlotIndex, WrappingAdd, Queued, Splice, Slots, SlotAt;
      ghost var sh := View();
      ghost var f := InPlaceFrame(sh.slots[slot.idx], id, len);
      if Honest() { QueuedBounds(g, sh, published, released); }
      var wasEmpty := readPos == slot.pos;
      WriteHeader(slot.idx, len, id);
      seqs[slot.idx] := WrappingAdd(slot.pos, 1);
      writePos := WrappingAdd(slot.pos, 1);
      published := published + [f];
      r := Pushed(wasEmpty);
      assert View() == AfterCommit(g, sh, slot, id, len);
      CommitIsPush(g, sh, id, len);
      if old(Honest()) { PushEnqueues(g, sh, old(published), released, f); }
    }

    /** `commit_raw_nosignal`: locate the slot again, then commit it. */
    method CommitRaw(id: u32, len: nat) returns (r: PushOutcome)
      requires Mapped()
      modifies this, seqs, data
      ensures var w := SlotWindow(g, old(seqs[SlotIndex(g, writePos)]), old(writePos));
              && (r.Full? <==> w == Occupied) && (r.RingCorrupt? <==> w == Corrupt)
              && (r.FrameTooLarge? <==> w == Free && len > MaxPayload(g))
      ensures r.Pushed? ==> View() == AfterPush(g, old(View()),
                InPlaceFrame(old(View()).slots[SlotIndex(g, old(writePos))], id, len))
      ensures !r.Pushed? ==> View() == old(View())
      ensures old(Honest()) ==>
        && Honest() && !r.RingCorrupt?
        && (r.Full? <==> |old(Queue())| == g.capacity)
        && Queue() == old(Queue()) + (if r.Pushed? then [InPlaceFrame(old(View()).slots[SlotIndex(g, old(writePos))], id, len)] else [])
    {
      hide ProducerWindow, SlotWindow, SlotIndex, AfterPush, Queued, Slots;
      if Honest() { QueuedBounds(g, View(), published, released); }
      var res := Reserve();
      match res
      case NoRoom => r := Full;
      case BadRing => r := RingCorrupt;
      case Reserved(slot) => r := Commit(slot, id, len);
    }

    // ── Consumption ──

    /** `next_ready`: the position, slot, clamped length and id of the frame at `read_pos`. */
    method NextReady() returns (r: Option<(u64, nat, nat, u32)>)
      requires Mapped()
      ensures r.None? <==> FrontFrame(g, View()).None?
      ensures r.Some? ==>
        var (pos, idx, len, id) := r.value;
        && pos == readPos && idx == SlotIndex(g, pos) && len <= MaxPayload(g)
        && FrontFrame(g, View()) == Some(Frame(id, View().slots[idx][FRAME_HEADER_LEN..FRAME_HEADER_LEN + len]))
    {
      hide SlotIndex, IsReady, MarksReady, DecodeHeader, Slots;
      var pos := readPos;
      var idx := SlotIndex(g, pos);
      WindowsExactly(g, seqs[idx], pos);
      if !IsReady(seqs[idx], pos) { return None; }
      SlotInside(idx, g.capacity, g.segmentSize);
      var off := idx * g.segmentSize;
      var hdr := data[off..off + FRAME_HEADER_LEN];
      assert hdr == SlotAt(g, data[..], idx)[..FRAME_HEADER_LEN];
      var (len, id) := DecodeHeader(hdr);
      r := Some((pos, idx, Min(len, MaxPayload(g)), id));
    }

    /** Copy `n` payload bytes out of slot `idx`. */
    method ReadPayload(idx: nat, start: nat, n: nat) returns (bytes: seq<byte>)
      requires Mapped() && idx < g.capacity && start + n <= g.segmentSize
      ensures bytes == View().slots[idx][start..start + n]
    {
      hide Slots, SlotAt;
      SlotSlice(g, data[..], idx, start, n);
      var off := idx * g.segmentSize + start;
      bytes := data[off..off + n];
      assert bytes == data[..][off..off + n];
    }

    method ReleaseSlot(pos: u64, idx: nat)
      requires Mapped() && pos == readPos && idx == SlotIndex(g, pos) && FrontFrame(g, View()).Some?
      modifies this, seqs
      ensures View() == AfterRelease(g, old(View()))
      ensures published == old(published) && released == old(released) + 1
      ensures old(Honest()) ==> Honest() && Queue() == old(Queue())[1..]
    {
      hide SlotIndex, FrontFrame, Queued, WrappingAdd, Slots;
      ghost var sh := View();
      seqs[idx] := WrappingAdd(pos, g.capacity);
      readPos := WrappingAdd(pos, 1);
      released := released + 1;
      assert View() == AfterRelease(g, sh);
      if old(Honest()) {
        QueuedBounds(g, sh, published, released - 1);
        FrontIsOldest(g, sh, published, released - 1);
        ReleaseDequeues(g, sh, published, released - 1);
      }
    }

    method TryPopInto() returns (r: Option<Frame>)
      requires Mapped()
      modifies this, seqs
      ensures r == FrontFrame(g, old(View()))
      ensures View() == if r.Some? then AfterRelease(g, old(View())) else old(View())
      ensures published == old(published)
      ensures old(Honest()) ==> Honest() && old(Queue()) == (if r.Some? then [r.value] else []) + Queue()
      ensures old(Honest()) ==> (r.None? <==> old(Queue()) == [])
    {
      hide SlotIndex, FrontFrame, AfterRelease, Queued, Slots;
      if Honest() {
        QueuedBounds(g, View(), published, released);
        FrontIsOldest(g, View(), published, released);
      }
      var next := NextReady();
      if next.None? { return None; }
      var (pos, idx, len, id) := next.value;
      var payload := ReadPayload(idx, FRAME_HEADER_LEN, len);
      ReleaseSlot(pos, idx);
      r := Some(Frame(id, payload));
    }

    /** A pop into a caller's slice: the payload is cut to the room given, the frame is consumed whole. */
    method TryPopIntoSlice(out: array<byte>) returns (r: Option<(u32, nat)>)
      requires Mapped() && out as object != seqs as object && out != data
      modifies this, seqs, out
      ensures r.None? <==> FrontFrame(g, old(View())).None?
      ensures r.Some? ==>
        var f := FrontFrame(g, old(View())).value;
        && r.value == (f.id, Min(|f.payload|, out.Length))
        && out[..r.value.1] == f.payload[..r.value.1] && out[r.value.1..] == old(out[r.value.1..])
        && View() == AfterRelease(g, old(View()))
      ensures r.None? ==> View() == old(View()) && out[..] == old(out[..])
      ensures old(Honest()) ==> Honest() && (r.None? <==> old(Queue()) == [])
      ensures old(Honest()) && r.Some? ==> Queue() == old(Queue())[1..] && FrontFrame(g, old(View())).value == old(Queue())[0]
    {
      hide SlotIndex, FrontFrame, AfterRelease, Queued, Slots;
      if Honest() {
        QueuedBounds(g, View(), published, released);
        FrontIsOldest(g, View(), published, released);
      }
      var next := NextReady();
      if next.None? { return None; }
      var (pos, idx, len, id) := next.value;
      var n := Min(len, out.Length);
      var bytes := ReadPayload(idx, FRAME_HEADER_LEN, n);
      assert bytes == View().slots[idx][FRAME_HEADER_LEN..FRAME_HEADER_LEN + len][..n];
      forall k | 0 <= k < n { out[k] := bytes[k]; }
      ReleaseSlot(pos, idx);
      r := Some((id, n));
    }

    /** `peek_frame`: the frame's bytes as they stand in the slot, not yet consumed. */
    method PeekFrame() returns (r: Option<seq<byte>>)
      requires Mapped()
      ensures r.None? <==> FrontFrame(g, View()).None?
      ensures r.Some? ==>
        && |r.value| == FRAME_HEADER_LEN + |FrontFrame(g, View()).value.payload| <= g.segmentSize
        && r.value <= View().slots[SlotIndex(g, readPos)]
      ensures Honest() ==> r == if Queue() == [] then None else Some(Encode(Queue()[0]))
    {
      hide SlotIndex, FrontFrame, Queued, Slots, Encode;
      if Honest() {
        QueuedBounds(g, View(), published, released);
        FrontIsOldest(g, View(), published, released);
      }
      var next := NextReady();
      if next.None? { return None; }
      var (_, idx, len, _) := next.value;
      var bytes := ReadPayload(idx, 0, FRAME_HEADER_LEN + len);
      r := Some(bytes);
      assert bytes <= View().slots[idx];
      if Honest() {
        assert Queue()[0] == published[released];
        PrefixesEqual(bytes, Encode(Queue()[0]), View().slots[idx]);
      }
    }

    /** `advance`: release the slot at `read_pos` if it is ready, otherwise do nothing. */
    method Advance()
      requires Mapped()
      modifies this, seqs
      ensures View() == if FrontFrame(g, old(View())).Some? then AfterRelease(g, old(View())) else old(View())
      ensures published == old(published)
      ensures old(Honest()) ==> Honest() && Queue() == if old(Queue()) == [] then [] else old(Queue())[1..]
    {
      hide SlotIndex, AfterRelease, Queued, Slots, IsReady, MarksReady, DecodeHeader;
      if Honest() {
        QueuedBounds(g, View(), published, released);
        FrontIsOldest(g, View(), published, released);
      }
      var pos := readPos;
      var idx := SlotIndex(g, pos);
      WindowsExactly(g, seqs[idx], pos);
      if !IsReady(seqs[idx], pos) { return; }
      ReleaseSlot(pos, idx);
    }

    method IsEmpty() returns (r: bool)
      requires Mapped()
      ensures r <==> FrontFrame(g, View()).None?
      ensures Honest() ==> (r <==> Queue() == [])
    {
      hide SlotIndex, Queued, Slots, IsReady, MarksReady, DecodeHeader;
      if Honest() {
        QueuedBounds(g, View(), published, released);
        FrontIsOldest(g, View(), published, released);
      }
      var pos := readPos;
      WindowsExactly(g, seqs[SlotIndex(g, pos)], pos);
      r := !IsReady(seqs[SlotIndex(g, pos)], pos);
    }
  }
}
