/** Either ring kind as one direction of a shared-memory segment, seen as a queue with a history:
    the frames ever published and how many of them were taken. */
module Channels {
  import opened Words
  import opened Options
  import opened Frames
  import SlotRing
  import Slot = SlotObject
  import Byte = ByteObject
  import ByteTheorems

  datatype Channel = SlotChannel(s: Slot.Ring) | ByteChannel(b: Byte.Ring)

  ghost function Repr(ch: Channel): set<object> {
    match ch
    case SlotChannel(s) => {s, s.seqs, s.data}
    case ByteChannel(b) => {b, b.data}
  }

  ghost function Published(ch: Channel): seq<Frame>
    reads Repr(ch)
  {
    if ch.SlotChannel? then ch.s.published else ch.b.published
  }

  ghost function Count(ch: Channel): nat
    reads Repr(ch)
  {
    if ch.SlotChannel? then ch.s.released else ch.b.popped
  }

  ghost predicate Honest(ch: Channel)
    reads Repr(ch)
  {
    if ch.SlotChannel? then ch.s.Honest() else ch.b.Honest()
  }

  /** The largest payload one frame can have. */
  ghost function MaxFrame(ch: Channel): int {
    match ch
    case SlotChannel(s) => s.g.segmentSize - FRAME_HEADER_LEN
    case ByteChannel(b) => b.cap - FRAME_HEADER_LEN
  }

  /** `total` published bytes leave the address arithmetic of the ring exact. */
  ghost predicate Lasts(ch: Channel, total: nat) {
    ch.ByteChannel? ==> ch.b.cap > 0 && ByteTheorems.WrapSafe(ch.b.cap, total)
  }

  /** The frames waiting, oldest first. */
  ghost function Waiting(ch: Channel): seq<Frame>
    reads Repr(ch)
    requires Count(ch) <= |Published(ch)|
  {
    Published(ch)[Count(ch)..]
  }

  /** A frame of this payload length fits beside the frames from `count` on. */
  ghost predicate HasRoom(ch: Channel, published: seq<Frame>, count: nat, len: nat)
    requires count <= |published|
  {
    match ch
    case SlotChannel(s) => |published| - count < s.g.capacity
    case ByteChannel(b) => Byte.Unread(published, count) + FRAME_HEADER_LEN + len <= b.cap
  }

  lemma HonestBounds(ch: Channel)
    requires Honest(ch)
    ensures Count(ch) <= |Published(ch)|
    ensures forall f :: f in Published(ch) ==> |f.payload| <= MaxFrame(ch) && |f.payload| < U32_SPAN
    ensures ch.SlotChannel? ==> ch.s.Mapped()
    ensures ch.ByteChannel? ==> ch.b.Mapped()
  {
    match ch
    case SlotChannel(s) => Slot.QueuedBounds(s.g, s.View(), s.published, s.released);
    case ByteChannel(b) => Byte.QueuedBounds(b.View(), b.published, b.popped);
  }

  datatype Answer = Sent(wasEmpty: bool) | NoRoom | TooLong | Corrupted

  /** `push_g2c_frame`, and the client's `try_push`: append one frame, or report why not. The
      byte-stream ring always reports that it was empty. */
  method Push(ch: Channel, id: u32, payload: seq<byte>) returns (r: Answer)
    requires Honest(ch) && Lasts(ch, |EncodeAll(Published(ch))| + FRAME_HEADER_LEN + |payload|)
    modifies Repr(ch)
    ensures Honest(ch) && Count(ch) == old(Count(ch)) <= |old(Published(ch))|
    ensures Published(ch) == if r.Sent? then old(Published(ch)) + [Frame(id, payload)] else old(Published(ch))
    ensures r.TooLong? <==> |payload| > MaxFrame(ch)
    ensures r.NoRoom? <==> |payload| <= MaxFrame(ch) && !HasRoom(ch, old(Published(ch)), old(Count(ch)), |payload|)
    ensures r.NoRoom? ==> old(Waiting(ch)) != []
    ensures !r.Corrupted?
    ensures r.Sent? && ch.SlotChannel? ==> (r.wasEmpty <==> old(Waiting(ch)) == [])
    ensures r.Sent? && ch.ByteChannel? ==> r.wasEmpty
  {
    HonestBounds(ch);
    hide EncodeAll, Slot.Queued, Byte.Queued, ByteTheorems.WrapSafe;
    match ch
    case SlotChannel(s) => r := PushSlot(s, id, payload);
    case ByteChannel(b) => r := PushByte(b, id, payload);
  }

  method PushSlot(s: Slot.Ring, id: u32, payload: seq<byte>) returns (r: Answer)
    requires s.Honest() && s.released <= |s.published|
    modifies s, s.seqs, s.data
    ensures s.Honest() && s.released == old(s.released)
    ensures s.published == if r.Sent? then old(s.published) + [Frame(id, payload)] else old(s.published)
    ensures r.TooLong? <==> |payload| > s.g.segmentSize - FRAME_HEADER_LEN
    ensures !r.Corrupted? && (r.NoRoom? ==> old(s.Queue()) != [])
    ensures r.NoRoom? <==> !r.TooLong? && |old(s.published)| - old(s.released) == s.g.capacity
    ensures |s.published| - s.released <= s.g.capacity
    ensures r.Sent? ==> (r.wasEmpty <==> old(s.Queue()) == [])
  {
    hide Slot.Queued, Slot.AfterPush, SlotRing.ProducerWindow, SlotRing.SlotIndex;
    var o := s.TryPush(id, payload);
    Slot.QueuedBounds(s.g, s.View(), s.published, s.released);
    match o
    case Full => r := NoRoom;
    case FrameTooLarge => r := TooLong;
    case RingCorrupt => r := Corrupted;
    case Pushed(wasEmpty) => r := Sent(wasEmpty);
  }

  method PushByte(b: Byte.Ring, id: u32, payload: seq<byte>) returns (r: Answer)
    requires b.Honest() && ByteTheorems.WrapSafe(b.cap, |EncodeAll(b.published)| + FRAME_HEADER_LEN + |payload|)
    modifies b, b.data
    ensures b.Honest() && b.popped == old(b.popped) <= |old(b.published)|
    ensures b.published == if r.Sent? then old(b.published) + [Frame(id, payload)] else old(b.published)
    ensures r.TooLong? <==> |payload| > b.cap - FRAME_HEADER_LEN
    ensures !r.Corrupted? && (r.NoRoom? ==> old(b.Queue()) != [])
    ensures r.NoRoom? <==> !r.TooLong? && Byte.Unread(old(b.published), b.popped) + FRAME_HEADER_LEN + |payload| > b.cap
    ensures r.Sent? ==> r.wasEmpty
  {
    hide EncodeAll, Byte.Queued, Byte.AfterPush, Byte.Unread, WrappingSub, ByteTheorems.WrapSafe;
    EncodeAllSnoc(b.published, Frame(id, payload));
    ByteFull(b);
    var o := b.TryPush(id, payload);
    match o
    case RingFull => r := NoRoom;
    case Oversized => r := TooLong;
    case RingCorrupt => r := Corrupted;
    case Pushed => r := Sent(true);
  }

  lemma ByteFull(b: Byte.Ring)
    requires b.Honest()
    ensures b.popped <= |b.published| && (b.popped == |b.published| ==> Byte.Unread(b.published, b.popped) == 0)
  {
    hide EncodeAll;
    Byte.QueuedBounds(b.View(), b.published, b.popped);
    ByteTheorems.OffsetEnd(b.published);
  }

  /** `try_pop_into` on either ring. */
  method Pop(ch: Channel) returns (r: Option<Frame>)
    requires Honest(ch)
    modifies Repr(ch)
    ensures Honest(ch) && Published(ch) == old(Published(ch))
    ensures old(Count(ch)) <= |old(Published(ch))|
    ensures r.None? <==> old(Waiting(ch)) == []
    ensures r.None? ==> Count(ch) == old(Count(ch))
    ensures r.Some? ==> Count(ch) == old(Count(ch)) + 1 && r.value == old(Waiting(ch))[0]
  {
    HonestBounds(ch);
    match ch {
      case SlotChannel(s) =>
        r := s.TryPopInto();
      case ByteChannel(b) =>
        r := b.TryPopInto();
    }
    HonestBounds(ch);
  }

  /** `consumer_is_empty`. */
  method IsEmpty(ch: Channel) returns (r: bool)
    requires Honest(ch)
    ensures Count(ch) <= |Published(ch)| && (r <==> Waiting(ch) == [])
  {
    HonestBounds(ch);
    match ch
    case SlotChannel(s) => r := s.IsEmpty();
    case ByteChannel(b) => r := b.IsEmpty();
  }

  datatype BatchResult = BatchSent(n: nat) | BatchError

  /** `try_send_batch`: push leading messages until one does not fit; what was accepted is a prefix
      of the batch, in order. */
  method TrySendBatch(ch: Channel, id: u32, msgs: seq<seq<byte>>) returns (r: BatchResult, ghost sent: nat)
    requires Honest(ch) && Lasts(ch, |EncodeAll(Published(ch))| + |EncodeAll(FramesOf(id, msgs))|)
    modifies Repr(ch)
    ensures Honest(ch) && Count(ch) == old(Count(ch)) <= |old(Published(ch))|
    ensures sent <= |msgs| && Published(ch) == old(Published(ch)) + FramesOf(id, msgs)[..sent]
    ensures r.BatchSent? ==> r.n == sent
    ensures r.BatchSent? && sent < |msgs| ==>
              |msgs[sent]| <= MaxFrame(ch) && !HasRoom(ch, Published(ch), Count(ch), |msgs[sent]|)
    ensures r.BatchError? ==> sent < |msgs| && |msgs[sent]| > MaxFrame(ch)
  {
    hide Honest, EncodeAll, Lasts, Published, Count, HasRoom;
    HonestBounds(ch);
    sent := 0;
    ghost var fs := FramesOf(id, msgs);
    assert fs[..0] == [];
    for i := 0 to |msgs|
      invariant sent == i && Honest(ch) && Count(ch) == old(Count(ch))
      invariant Published(ch) == old(Published(ch)) + fs[..i]
    {
      SomeLast(ch, old(Published(ch)), fs, i);
      assert fs[i] == Frame(id, msgs[i]);
      var a := Push(ch, id, msgs[i]);
      if a.NoRoom? { return BatchSent(i), i; }
      if !a.Sent? { return BatchError, i; }
      assert fs[..i + 1] == fs[..i] + [fs[i]];
      sent := sent + 1;
    }
    r := BatchSent(|msgs|);
  }

  lemma LastsDown(ch: Channel, total: nat, less: nat)
    requires Lasts(ch, total) && less <= total
    ensures Lasts(ch, less)
  {
  }

  /** Bytes for a whole batch are enough for its prefixes. */
  lemma SomeLast(ch: Channel, a: seq<Frame>, fs: seq<Frame>, i: nat)
    requires i < |fs| && Lasts(ch, |EncodeAll(a)| + |EncodeAll(fs)|)
    ensures Lasts(ch, |EncodeAll(a + fs[..i])| + FRAME_HEADER_LEN + |fs[i].payload|)
  {
    hide EncodeAll, Lasts, Encode;
    EncodeAllConcat(a, fs[..i]);
    ByteTheorems.StreamAt(fs, i);
    LastsDown(ch, |EncodeAll(a)| + |EncodeAll(fs)|, |EncodeAll(a + fs[..i])| + FRAME_HEADER_LEN + |fs[i].payload|);
  }
}
