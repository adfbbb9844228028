/** The byte-stream ring's operations on mapped memory: two counters and one circular byte array.
    Their contracts hold for any counters and any bytes a peer may have written; on memory that
    holds a queue they are queue operations. */
module ByteObject {
  import opened Words
  import opened Frames
  import opened Copies
  import opened ByteRing
  import opened ByteTheorems
  import opened Options

  // ── Effects on shared memory ──

  function AfterPush(sh: Shared, f: Frame): (r: Shared)
    requires Total(f) <= |sh.data|
    ensures |r.data| == |sh.data|
  {
    var cap := |sh.data|;
    var off := Cell(cap, sh.writeIdx);
    var data := WriteWrapped(sh.data, off, EncodeHeader(|f.payload| % U32_SPAN, f.id));
    Shared(WrappingAdd(sh.writeIdx, Total(f)), sh.readIdx, WriteWrapped(data, Cell(cap, off + FRAME_HEADER_LEN), f.payload))
  }

  /** The frame a pop finds at `read_idx`: complete within the published bytes and the ring. */
  function FrontFrame(sh: Shared): (r: Option<Frame>)
    ensures r.Some? ==> Total(r.value) <= |sh.data|
  {
    var cap := |sh.data|;
    var avail := Min(WrappingSub(sh.writeIdx, sh.readIdx), cap);
    if avail < FRAME_HEADER_LEN then None
    else
      var off := Cell(cap, sh.readIdx);
      var (len, id) := DecodeHeader(ReadWrapped(sh.data, off, FRAME_HEADER_LEN));
      if len > cap - FRAME_HEADER_LEN || avail < FRAME_HEADER_LEN + len then None
      else Some(Frame(id, ReadWrapped(sh.data, Cell(cap, off + FRAME_HEADER_LEN), len)))
  }

  lemma FrontFrameIs(sh: Shared)
    ensures var cap := |sh.data|;
            var avail := Min(WrappingSub(sh.writeIdx, sh.readIdx), cap);
            if avail < FRAME_HEADER_LEN then FrontFrame(sh).None?
            else
              var off := Cell(cap, sh.readIdx);
              var (len, id) := DecodeHeader(ReadWrapped(sh.data, off, FRAME_HEADER_LEN));
              if len > cap - FRAME_HEADER_LEN || avail < FRAME_HEADER_LEN + len then FrontFrame(sh).None?
              else FrontFrame(sh) == Some(Frame(id, ReadWrapped(sh.data, Cell(cap, off + FRAME_HEADER_LEN), len)))
  {
    hide ReadWrapped, DecodeHeader, Cell, WrappingSub;
  }

  /** On any counters and bytes, what a pop returns lies within the ring and within what was published,
      byte for byte; it returns nothing exactly when a header or the frame it announces does not. */
  lemma FrontFrameExactly(sh: Shared)
    requires |sh.data| >= FRAME_HEADER_LEN
    ensures var cap, used := |sh.data|, WrappingSub(sh.writeIdx, sh.readIdx);
      var off := Cell(cap, sh.readIdx);
      var (len, id) := DecodeHeader(ReadWrapped(sh.data, off, FRAME_HEADER_LEN));
      && (FrontFrame(sh).Some? <==> FRAME_HEADER_LEN + len <= used && FRAME_HEADER_LEN + len <= cap)
      && (FrontFrame(sh).Some? ==> FrontFrame(sh).value.id == id && |FrontFrame(sh).value.payload| == len)
    ensures FrontFrame(sh).Some? ==>
      var cap, f := |sh.data|, FrontFrame(sh).value;
      var next := Cell(cap, Cell(cap, sh.readIdx) + FRAME_HEADER_LEN);
      forall j :: 0 <= j < |f.payload| ==> f.payload[j] == sh.data[Cell(cap, next + j)]
  {
    hide ReadWrapped, DecodeHeader, Cell, WrappingSub;
    var cap, f := |sh.data|, FrontFrame(sh);
    assert DecodeHeader(ReadWrapped(sh.data, Cell(cap, sh.readIdx), FRAME_HEADER_LEN)).0 >= 0;
    if f.Some? {
      var next := Cell(cap, Cell(cap, sh.readIdx) + FRAME_HEADER_LEN);
      forall j | 0 <= j < |f.value.payload| ensures f.value.payload[j] == sh.data[Cell(cap, next + j)] {
        ReadWrappedAt(sh.data, next, |f.value.payload|, j);
      }
    }
  }

  function AfterPop(sh: Shared, f: Frame): Shared {
    sh.(readIdx := WrappingAdd(sh.readIdx, Total(f)))
  }

  // ── Effects on the queue ──

  /** Shared memory between whole operations: `published[popped..]` is unread. */
  ghost predicate Queued(sh: Shared, published: seq<Frame>, popped: nat) {
    && 0 < |sh.data| < U32_SPAN + FRAME_HEADER_LEN
    && Holds(|sh.data|, sh.data, published, popped)
    && sh.writeIdx == |EncodeAll(published)| % U64_SPAN
    && sh.readIdx == Offset(published, popped) % U64_SPAN
  }

  /** Bytes written and not yet consumed. */
  function Unread(published: seq<Frame>, popped: nat): int
    requires popped <= |published|
  {
    |EncodeAll(published)| - Offset(published, popped)
  }

  lemma QueuedBounds(sh: Shared, published: seq<Frame>, popped: nat)
    requires Queued(sh, published, popped)
    ensures popped <= |published| && 0 <= Unread(published, popped) <= |sh.data|
    ensures WrappingSub(sh.writeIdx, sh.readIdx) == Unread(published, popped)
    ensures Unread(published, popped) < FRAME_HEADER_LEN <==> popped == |published|
  {
    hide EncodeAll, Offset, Cell;
    OffsetMonotone(published, popped, |published|);
    OffsetEnd(published);
    WrappedDistance(|EncodeAll(published)|, Offset(published, popped), |sh.data|);
    if popped < |published| { StreamAt(published, popped); }
  }

  /** The frame occupies the cells from the write position on; no other cell changes. */
  lemma PushedCells(sh: Shared, f: Frame, j: nat)
    requires Total(f) <= |sh.data| && j < |sh.data|
    ensures var a := Cell(|sh.data|, Cell(|sh.data|, sh.writeIdx) + j);
            AfterPush(sh, f).data[a] == if j < Total(f) then Encode(f)[j] else sh.data[a]
  {
    hide EncodeHeader, WriteWrapped, Cell;
    var cap := |sh.data|;
    var off := Cell(cap, sh.writeIdx);
    var hdr := EncodeHeader(|f.payload| % U32_SPAN, f.id);
    var data := WriteWrapped(sh.data, off, hdr);
    var off' := Cell(cap, off + FRAME_HEADER_LEN);
    WriteWrappedAt(sh.data, off, hdr, j);
    if j >= FRAME_HEADER_LEN {
      WriteWrappedAt(data, off', f.payload, j - FRAME_HEADER_LEN);
      CellAdd(cap, off + FRAME_HEADER_LEN, j - FRAME_HEADER_LEN);
    } else {
      WriteWrappedAt(data, off', f.payload, cap - FRAME_HEADER_LEN + j);
      CellAdd(cap, off + FRAME_HEADER_LEN, cap - FRAME_HEADER_LEN + j);
      CellPeriod(cap, off + j);
    }
  }

  /** The same in stream positions, where the counters wrap harmlessly. */
  lemma PushedStream(sh: Shared, w: nat, f: Frame, j: nat)
    requires Total(f) <= |sh.data| && j < |sh.data| && sh.writeIdx == w % U64_SPAN && WrapSafe(|sh.data|, w)
    ensures AfterPush(sh, f).data[Cell(|sh.data|, w + j)]
         == if j < Total(f) then Encode(f)[j] else sh.data[Cell(|sh.data|, w + j)]
  {
    hide AfterPush, Encode, Cell, WrapSafe;
    WrapSafeCell(|sh.data|, w);
    PushedCells(sh, f, j);
    CellAdd(|sh.data|, w, j);
  }

  lemma PushKeepsUnread(sh: Shared, published: seq<Frame>, popped: nat, f: Frame)
    requires Queued(sh, published, popped) && WrapSafe(|sh.data|, |EncodeAll(published)|)
    requires Total(f) <= |sh.data| && popped <= |published| && Unread(published, popped) + Total(f) <= |sh.data|
    ensures Holds(|sh.data|, AfterPush(sh, f).data, published, popped)
  {
    hide EncodeAll, Offset, AfterPush, Encode, Cell, WrapSafe;
    var cap, W, R := |sh.data|, |EncodeAll(published)|, Offset(published, popped);
    forall q | R <= q < W ensures AfterPush(sh, f).data[Cell(cap, q)] == EncodeAll(published)[q] {
      CellPeriod(cap, q);
      PushedStream(sh, W, f, q + cap - W);
    }
  }

  lemma PushEnqueues(sh: Shared, published: seq<Frame>, popped: nat, f: Frame)
    requires Queued(sh, published, popped) && WrapSafe(|sh.data|, |EncodeAll(published)|)
    requires Total(f) <= |sh.data| && popped <= |published| && Unread(published, popped) + Total(f) <= |sh.data|
    ensures Queued(AfterPush(sh, f), published + [f], popped)
  {
    hide EncodeAll, Offset, AfterPush, Encode, Cell, WrapSafe, WrappingAdd;
    var cap, W := |sh.data|, |EncodeAll(published)|;
    AfterPushCounters(sh, f);
    forall j | 0 <= j < Total(f) ensures AfterPush(sh, f).data[Cell(cap, W + j)] == Encode(f)[j] {
      PushedStream(sh, W, f, j);
    }
    PushKeepsUnread(sh, published, popped, f);
    PublishKeepsHolds(cap, AfterPush(sh, f).data, published, popped, f);
    EncodeAllSnoc(published, f);
    OffsetStable(published, f, popped);
    WrappedAdvance(W, Total(f));
  }

  lemma AfterPushCounters(sh: Shared, f: Frame)
    requires Total(f) <= |sh.data|
    ensures AfterPush(sh, f).readIdx == sh.readIdx
    ensures AfterPush(sh, f).writeIdx == WrappingAdd(sh.writeIdx, Total(f))
  {
  }

  /** A wrapped read from the cell of position `p` on spells what the cells hold. */
  lemma ReadCells(data: seq<byte>, p: nat, e: seq<byte>)
    requires 0 < |data| && |e| <= |data|
    requires forall j :: 0 <= j < |e| ==> data[Cell(|data|, p + j)] == e[j]
    ensures ReadWrapped(data, Cell(|data|, p), |e|) == e
  {
    hide ReadWrapped, Cell;
    forall j | 0 <= j < |e| ensures ReadWrapped(data, Cell(|data|, p), |e|)[j] == e[j] {
      ReadWrappedAt(data, Cell(|data|, p), |e|, j);
      CellAdd(|data|, p, j);
    }
  }

  lemma WrapSafeDown(cap: nat, w: nat, r: nat)
    requires cap > 0 && r <= w && WrapSafe(cap, w)
    ensures WrapSafe(cap, r)
  {
  }

  lemma FrontReads(sh: Shared, published: seq<Frame>, popped: nat)
    requires Queued(sh, published, popped) && WrapSafe(|sh.data|, |EncodeAll(published)|) && popped < |published|
    ensures var cap, off, f := |sh.data|, Cell(|sh.data|, sh.readIdx), published[popped];
            && Total(f) <= |sh.data|
            && ReadWrapped(sh.data, off, FRAME_HEADER_LEN) == Encode(f)[..FRAME_HEADER_LEN]
            && ReadWrapped(sh.data, Cell(cap, off + FRAME_HEADER_LEN), |f.payload|) == f.payload
  {
    hide EncodeAll, Offset, ReadWrapped, Encode, Cell, WrapSafe;
    var cap, R, f := |sh.data|, Offset(published, popped), published[popped];
    QueuedBounds(sh, published, popped);
    WrapSafeDown(cap, |EncodeAll(published)|, R);
    WrapSafeCell(cap, R);
    FrontBytes(sh, published, popped);
    CellAdd(cap, R, FRAME_HEADER_LEN);
    EncodedSplit(f);
    ReadCells(sh.data, R, Encode(f)[..FRAME_HEADER_LEN]);
    var p := R + FRAME_HEADER_LEN;
    forall j | 0 <= j < |f.payload| ensures sh.data[Cell(cap, p + j)] == f.payload[j] {
      var k := FRAME_HEADER_LEN + j;
      assert p + j == R + k;
      assert sh.data[Cell(cap, R + k)] == Encode(f)[k];
    }
    ReadCells(sh.data, p, f.payload);
  }

  lemma FrontIsOldest(sh: Shared, published: seq<Frame>, popped: nat)
    requires Queued(sh, published, popped) && WrapSafe(|sh.data|, |EncodeAll(published)|)
    ensures popped <= |published|
    ensures FrontFrame(sh) == if popped < |published| then Some(published[popped]) else None
  {
    hide EncodeAll, Offset, ReadWrapped, WrappingSub, DecodeHeader, Encode, Cell, WrapSafe;
    QueuedBounds(sh, published, popped);
    if popped < |published| {
      FrontReads(sh, published, popped);
      FrontBytes(sh, published, popped);
      HeaderOfEncoded(published[popped]);
    }
  }

  lemma EncodedSplit(f: Frame)
    ensures forall j :: 0 <= j < |f.payload| ==> Encode(f)[FRAME_HEADER_LEN + j] == f.payload[j]
  {
    hide EncodeHeader;
  }

  lemma FrontBytes(sh: Shared, published: seq<Frame>, popped: nat)
    requires Queued(sh, published, popped) && popped < |published|
    ensures var R, f := Offset(published, popped), published[popped];
            && Unread(published, popped) >= Total(f) && Total(f) <= |sh.data| && |f.payload| < U32_SPAN
            && forall j :: 0 <= j < Total(f) ==> sh.data[Cell(|sh.data|, R + j)] == Encode(f)[j]
  {
    hide EncodeAll, Offset, Cell, Encode;
    var R, f, st := Offset(published, popped), published[popped], EncodeAll(published);
    StreamAt(published, popped);
    forall j | 0 <= j < Total(f) ensures sh.data[Cell(|sh.data|, R + j)] == Encode(f)[j] {
      assert Encode(f)[j] == st[R..R + Total(f)][j] == st[R + j];
    }
  }

  lemma PopDequeues(sh: Shared, published: seq<Frame>, popped: nat)
    requires Queued(sh, published, popped) && popped < |published|
    ensures Queued(AfterPop(sh, published[popped]), published, popped + 1)
  {
    hide EncodeAll, Offset, Cell;
    PopKeepsHolds(|sh.data|, sh.data, published, popped);
    OffsetNext(published, popped);
    WrappedAdvance(Offset(published, popped), Total(published[popped]));
  }

  /** A memory of zero counters holds the empty queue. */
  lemma InitiallyEmpty(sh: Shared)
    requires 0 < |sh.data| < U32_SPAN + FRAME_HEADER_LEN && sh.writeIdx == sh.readIdx == 0
    ensures Queued(sh, [], 0)
  {
    assert EncodeAll([]) == [];
  }

  // ── The ring ──

  class Ring {
    const cap: nat
    const data: array<byte>
    var writeIdx: u64
    var readIdx: u64
    ghost var published: seq<Frame>
    ghost var popped: nat

    ghost predicate Mapped()
      reads this
    {
      cap == data.Length && 0 < cap
    }

    function View(): Shared
      reads this, data
    {
      Shared(writeIdx, readIdx, data[..])
    }

    /** No peer has tampered, and the bytes written so far wrap harmlessly. */
    ghost predicate Honest()
      reads this, data
    {
      Mapped() && Queued(View(), published, popped) && WrapSafe(cap, |EncodeAll(published)|)
    }

    ghost function Queue(): seq<Frame>
      reads this
      requires popped <= |published|
    {
      published[popped..]
    }

    constructor (cap: nat)
      requires 0 < cap < U32_SPAN + FRAME_HEADER_LEN
      ensures this.cap == cap && Honest() && published == [] && popped == 0 && fresh(data)
    {
      this.cap := cap;
      data := new byte[cap];
      writeIdx, readIdx := 0, 0;
      published, popped := [], 0;
      new;
      InitiallyEmpty(View());
    }

    /** The two-part copy of `write_wrapping`. */
    method WriteWrapping(off: nat, src: seq<byte>) returns (next: nat)
      requires Mapped() && off < cap && |src| <= cap
      modifies data
      ensures data[..] == WriteWrapped(old(data[..]), off, src)
      ensures next == Cell(cap, off + |src|)
    {
      hide Splice, Cell;
      var n := |src|;
      CellIs(cap, off + n);
      if n == 0 {
        assert src == [];
        SpliceNothing(data[..], off);
        SpliceNothing(data[..], 0);
        return off;
      }
      var first := Min(n, cap - off);
      CopyIn(data, off, src[..first]);
      if n > first {
        CopyIn(data, 0, src[first..]);
      } else {
        assert src[first..] == [];
        SpliceNothing(data[..], 0);
      }
      next := (off + n) % cap;
    }

    /** The two-part copy of `read_wrapping`. */
    method ReadWrapping(off: nat, n: nat) returns (bytes: seq<byte>)
      requires Mapped() && off < cap && n <= cap
      ensures bytes == ReadWrapped(data[..], off, n)
    {
      var first := Min(n, cap - off);
      bytes := data[off..off + first];
      if n > first { bytes := bytes + data[..n - first]; }
    }

    /** A push is accepted exactly when the frame fits beside the bytes in use, whatever the
        counters say; a rejected push changes nothing. */
    method TryPush(id: u32, payload: seq<byte>) returns (r: Outcome)
      requires Mapped()
      modifies this, data
      ensures r == Oversized <==> FRAME_HEADER_LEN + |payload| > cap
      ensures r != Oversized ==>
        var used := WrappingSub(old(writeIdx), old(readIdx));
        && (r == RingCorrupt <==> used > cap)
        && (r == RingFull <==> used <= cap < used + FRAME_HEADER_LEN + |payload|)
      ensures r == Pushed ==> View() == AfterPush(old(View()), Frame(id, payload))
      ensures r != Pushed ==> View() == old(View())
      ensures popped == old(popped)
      ensures published == if r == Pushed then old(published) + [Frame(id, payload)] else old(published)
      ensures old(Honest()) ==>
        && r != RingCorrupt
        && (WrapSafe(cap, |EncodeAll(published)|) ==> Honest())
        && (r == RingFull <==>
              FRAME_HEADER_LEN + |payload| <= cap < Unread(old(published), popped) + FRAME_HEADER_LEN + |payload|)
    {
      hide EncodeHeader, Queued, WriteWrapped, Cell, WrapSafe, EncodeAll, Unread, WrappingSub, WrappingAdd, Offset;
      var total := FRAME_HEADER_LEN + |payload|;
      if total > cap { return Oversized; }
      ghost var sh, f := View(), Frame(id, payload);
      if Honest() { QueuedBounds(sh, published, popped); }
      var write, read := writeIdx, readIdx;
      var used := WrappingSub(write, read);
      if used > cap { return RingCorrupt; }
      if cap - used < total { return RingFull; }
      var off := write % cap;
      assert off == Cell(cap, write) by { CellIs(cap, write); }
      off := WriteWrapping(off, EncodeHeader(|payload| % U32_SPAN, id));
      var _ := WriteWrapping(off, payload);
      writeIdx := WrappingAdd(write, total);
      published := published + [f];
      r := Pushed;
      assert View() == AfterPush(sh, f);
      if old(Honest()) { PushEnqueues(sh, old(published), popped, f); }
    }

    /** Locate the next complete frame: read position, payload offset, payload length and id. */
    method NextFrame() returns (r: Option<(u64, nat, nat, u32)>)
      requires Mapped()
      ensures r.None? <==> FrontFrame(View()).None?
      ensures r.Some? ==>
        var (read, off, len, id) := r.value;
        && read == readIdx && off < cap && len <= cap
        && FrontFrame(View()) == Some(Frame(id, ReadWrapped(data[..], off, len)))
    {
      hide ReadWrapped, DecodeHeader, WrappingSub, Cell, FrontFrame;
      FrontFrameIs(View());
      var read, write := readIdx, writeIdx;
      var avail := Min(WrappingSub(write, read), cap);
      if avail < FRAME_HEADER_LEN { return None; }
      var off := read % cap;
      assert off == Cell(cap, read) by { CellIs(cap, read); }
      var header := ReadWrapping(off, FRAME_HEADER_LEN);
      var next := (off + FRAME_HEADER_LEN) % cap;
      assert next == Cell(cap, off + FRAME_HEADER_LEN) by { CellIs(cap, off + FRAME_HEADER_LEN); }
      var (len, id) := DecodeHeader(header);
      if len > cap - FRAME_HEADER_LEN || avail < FRAME_HEADER_LEN + len { return None; }
      r := Some((read, next, len, id));
    }

    method ConsumeFrame(read: u64, len: nat)
      requires Mapped() && read == readIdx
      requires FrontFrame(View()).Some? && len == |FrontFrame(View()).value.payload|
      modifies this
      ensures View() == AfterPop(old(View()), FrontFrame(old(View())).value)
      ensures published == old(published) && popped == old(popped) + 1
      ensures old(Honest()) ==> Honest() && Queue() == old(Queue())[1..]
    {
      hide FrontFrame, Queued, WrappingAdd, WrapSafe, EncodeAll;
      ghost var sh := View();
      readIdx := WrappingAdd(read, FRAME_HEADER_LEN + len);
      popped := popped + 1;
      assert View() == AfterPop(sh, FrontFrame(sh).value);
      if old(Honest()) {
        FrontIsOldest(sh, published, popped - 1);
        PopDequeues(sh, published, popped - 1);
        QueuedBounds(View(), published, popped);
      }
    }

    method TryPopInto() returns (r: Option<Frame>)
      requires Mapped()
      modifies this
      ensures r == FrontFrame(old(View()))
      ensures View() == if r.Some? then AfterPop(old(View()), r.value) else old(View())
      ensures published == old(published)
      ensures old(Honest()) ==> Honest() && old(Queue()) == (if r.Some? then [r.value] else []) + Queue()
      ensures old(Honest()) ==> (r.None? <==> old(Queue()) == [])
    {
      hide FrontFrame, Queued, WrapSafe, EncodeAll, AfterPop, ReadWrapped;
      if Honest() { FrontIsOldest(View(), published, popped); }
      var next := NextFrame();
      if next.None? { return None; }
      var (read, off, len, id) := next.value;
      var payload := ReadWrapping(off, len);
      ConsumeFrame(read, len);
      r := Some(Frame(id, payload));
    }

    /** A pop into a caller's slice: the payload is cut to the room given, the frame is consumed whole. */
    method TryPopIntoSlice(out: array<byte>) returns (r: Option<(u32, nat)>)
      requires Mapped() && out != data
      modifies this, out
      ensures r.None? <==> FrontFrame(old(View())).None?
      ensures r.Some? ==>
        var f := FrontFrame(old(View())).value;
        && r.value == (f.id, Min(|f.payload|, out.Length))
        && out[..] == Splice(old(out[..]), 0, f.payload[..r.value.1])
        && View() == AfterPop(old(View()), f)
      ensures r.None? ==> View() == old(View()) && out[..] == old(out[..])
      ensures old(Honest()) ==> Honest() && (r.None? <==> old(Queue()) == [])
      ensures old(Honest()) && r.Some? ==> Queue() == old(Queue())[1..] && FrontFrame(old(View())).value == old(Queue())[0]
    {
      hide FrontFrame, Queued, WrapSafe, EncodeAll, AfterPop, ReadWrapped;
      if Honest() { FrontIsOldest(View(), published, popped); }
      var next := NextFrame();
      if next.None? { return None; }
      var (read, off, len, id) := next.value;
      var n := Min(len, out.Length);
      var bytes := ReadWrapping(off, n);
      ReadWrappedPrefix(data[..], off, n, len);
      forall k | 0 <= k < n { out[k] := bytes[k]; }
      ConsumeFrame(read, len);
      r := Some((id, n));
    }

    /** `is_empty`: fewer than a header's bytes between the counters. */
    method IsEmpty() returns (r: bool)
      requires Mapped()
      ensures r ==> FrontFrame(View()).None?
      ensures Honest() ==> (r <==> Queue() == [])
    {
      hide Queued, WrapSafe, EncodeAll, Unread, DecodeHeader, ReadWrapped, Cell, WrappingSub;
      if Honest() { QueuedBounds(View(), published, popped); }
      var write, read := writeIdx, readIdx;
      r := WrappingSub(write, read) < FRAME_HEADER_LEN;
    }
  }
}
