/** The slot ring under every interleaving: each load, each store and each copied byte of the
    producer and of the consumer is one step of a state machine. */
module SlotSteps {
  import opened Words
  import opened Frames
  import opened SlotRing
  import opened Copies

  // ── Program points ──

  /** What the producer will do if the slot is free. */
  datatype Want =
    | ToPush(f: Frame)
    | ToReserve
    | ToCommit(id: u32, len: nat, reserved: bool)  // a commit in a call of its own; `reserved`: after a reserve

  /** A frame on its way into the slot. */
  datatype Job =
    | Push(f: Frame)
    | Commit(id: u32, len: nat)  // the payload is already in place

  datatype Producer =
    | PIdle
    | PLoadSeq(want: Want, pos: u64)                             // `write_pos` loaded
    | PHeld(pos: u64)                                            // a reserved slot
    | PLoadRead(job: Job, pos: u64)                              // the slot was free
    | PCopy(job: Job, pos: u64, wasEmpty: bool, k: nat)          // `k` bytes stored
    | PStoreWrite(pos: u64, wasEmpty: bool)                      // `seq` stored

  datatype Read = PopInto | PopIntoSlice(room: nat) | Peek

  /** A frame as handed to the consumer's caller: payload bytes, or wire bytes for `Peek`. */
  datatype Delivery = Delivery(read: Read, id: u32, bytes: seq<byte>)

  datatype Consumer =
    | CIdle
    | CLoadSeq(read: Read, pos: u64)                             // `read_pos` loaded
    | CHeader(read: Read, pos: u64, hdr: seq<byte>)              // header bytes loaded so far
    | CBody(read: Read, pos: u64, id: u32, len: nat, got: seq<byte>)
    | CPeeked(d: Delivery)                                       // borrowed, not yet advanced
    | CAdvance(d: Delivery, pos: u64)                            // `read_pos` loaded again
    | CRelease(d: Delivery, pos: u64)
    | CStoreRead(pos: u64)                                       // `seq` stored

  datatype Outcome = Full | Pushed(wasEmpty: bool) | Oversized | Corrupt

  /** `published` and `popped` record the frames made ready and the frames released. */
  datatype State = State(
    sh: Shared,
    prod: Producer,
    cons: Consumer,
    published: seq<Frame>,
    popped: seq<Delivery>,
    outcomes: seq<Outcome>)

  datatype Label =
    | BeginPush(f: Frame)
    | BeginReserve
    | Fill(j: nat, b: byte)                    // the caller writes one payload byte of a held slot
    | CommitHeld(id: u32, len: nat)
    | BeginCommit(id: u32, len: nat)           // `commit_raw`: re-locate, then commit
    | Abandon
    | ProducerTick
    | BeginRead(read: Read)
    | BeginAdvance
    | DropPeek
    | ConsumerTick
    | Hostile(sh: Shared)                      // the peer rewrites shared memory

  // ── Well-formedness that no peer can take away ──

  function JobBytes(job: Job): seq<byte>
    requires job.Commit? ==> job.len < U32_SPAN
  {
    match job
    case Push(f) => Encode(f)
    case Commit(id, len) => EncodeHeader(len, id)
  }

  function JobLen(job: Job): nat {
    match job
    case Push(f) => |f.payload|
    case Commit(_, len) => len
  }

  /** Offset in the slot of the next byte a read copies, and the number it copies. */
  function BodyStart(read: Read): nat { if read.Peek? then 0 else FRAME_HEADER_LEN }

  function BodyLen(read: Read, len: nat): nat {
    match read
    case PopInto => len
    case PopIntoSlice(room) => Min(len, room)
    case Peek => FRAME_HEADER_LEN + len
  }

  ghost predicate Bounded(g: Geometry, s: State)
    requires ValidGeometry(g)
  {
    && Shaped(g, s.sh)
    && (s.prod.PLoadSeq? && s.prod.want.ToPush? ==> |s.prod.want.f.payload| <= MaxPayload(g))
    && ((s.prod.PLoadRead? || s.prod.PCopy?) ==> JobLen(s.prod.job) <= MaxPayload(g))
    && (s.prod.PCopy? ==> s.prod.k <= |JobBytes(s.prod.job)|)
    && (s.cons.CHeader? ==> |s.cons.hdr| < FRAME_HEADER_LEN)
    && (s.cons.CBody? ==> s.cons.len <= MaxPayload(g) && |s.cons.got| <= BodyLen(s.cons.read, s.cons.len))
  }

  // ── Steps ──

  function ProducerTickStep(g: Geometry, s: State): (s': State)
    requires ValidGeometry(g) && Bounded(g, s)
    ensures Bounded(g, s')
  {
    match s.prod
    case PIdle => s
    case PHeld(_) => s
    case PLoadSeq(want, pos) =>
      (match ProducerWindow(g, s.sh.seqs[SlotIndex(g, pos)], pos)
       case Occupied => s.(prod := PIdle, outcomes := s.outcomes + [Full])
       case Corrupt => s.(prod := PIdle, outcomes := s.outcomes + [Outcome.Corrupt])
       case Free =>
         match want
         case ToPush(f) => s.(prod := PLoadRead(Push(f), pos))
         case ToReserve => s.(prod := PHeld(pos))
         case ToCommit(id, len, _) => BeginCommitAt(g, s, pos, id, len))
    case PLoadRead(job, pos) =>
      s.(prod := PCopy(job, pos, s.sh.readPos == pos, 0))
    case PCopy(job, pos, wasEmpty, k) =>
      var i := SlotIndex(g, pos);
      if k < |JobBytes(job)| then
        s.(sh := s.sh.(slots := s.sh.slots[i := WithByte(s.sh.slots[i], k, JobBytes(job)[k])]),
           prod := PCopy(job, pos, wasEmpty, k + 1))
      else
        s.(sh := s.sh.(seqs := s.sh.seqs[i := WrappingAdd(pos, 1)]),
           prod := PStoreWrite(pos, wasEmpty),
           published := s.published + [PublishedBy(s.sh.slots[i], job)])
    case PStoreWrite(pos, wasEmpty) =>
      s.(sh := s.sh.(writePos := WrappingAdd(pos, 1)),
         prod := PIdle,
         outcomes := s.outcomes + [Pushed(wasEmpty)])
  }

  function BeginCommitAt(g: Geometry, s: State, pos: u64, id: u32, len: nat): State
    requires ValidGeometry(g)
  {
    if len > MaxPayload(g) then s.(prod := PIdle, outcomes := s.outcomes + [Oversized])
    else s.(prod := PLoadRead(Commit(id, len), pos))
  }

  /** The frame a job publishes: the one pushed, or the caller's bytes sitting in the slot. */
  function PublishedBy(slot: seq<byte>, job: Job): Frame
    requires job.Commit? ==> FRAME_HEADER_LEN + job.len <= |slot|
  {
    match job
    case Push(f) => f
    case Commit(id, len) => Frame(id, slot[FRAME_HEADER_LEN..FRAME_HEADER_LEN + len])
  }

  function ConsumerTickStep(g: Geometry, s: State): (s': State)
    requires ValidGeometry(g) && Bounded(g, s)
    ensures Bounded(g, s')
  {
    match s.cons
    case CIdle => s
    case CPeeked(_) => s
    case CLoadSeq(read, pos) =>
      if IsReady(s.sh.seqs[SlotIndex(g, pos)], pos) then s.(cons := CHeader(read, pos, []))
      else s.(cons := CIdle)
    case CHeader(read, pos, hdr) =>
      var hdr' := hdr + [s.sh.slots[SlotIndex(g, pos)][|hdr|]];
      if |hdr'| < FRAME_HEADER_LEN then s.(cons := CHeader(read, pos, hdr'))
      else
        var (len, id) := DecodeHeader(hdr');
        s.(cons := CBody(read, pos, id, Min(len, MaxPayload(g)), []))
    case CBody(read, pos, id, len, got) =>
      if |got| < BodyLen(read, len) then
        s.(cons := CBody(read, pos, id, len,
                         got + [s.sh.slots[SlotIndex(g, pos)][BodyStart(read) + |got|]]))
      else if read.Peek? then s.(cons := CPeeked(Delivery(read, id, got)))
      else s.(cons := CRelease(Delivery(read, id, got), pos))
    case CAdvance(d, pos) =>
      if IsReady(s.sh.seqs[SlotIndex(g, pos)], pos) then s.(cons := CRelease(d, pos))
      else s.(cons := CIdle)
    case CRelease(d, pos) =>
      s.(sh := s.sh.(seqs := s.sh.seqs[SlotIndex(g, pos) := WrappingAdd(pos, g.capacity)]),
         cons := CStoreRead(pos),
         popped := s.popped + [d])
    case CStoreRead(pos) =>
      s.(sh := s.sh.(readPos := WrappingAdd(pos, 1)), cons := CIdle)
  }

  /** One step; a label that does not apply where its process stands changes nothing. */
  function Step(g: Geometry, s: State, l: Label): (s': State)
    requires ValidGeometry(g) && Bounded(g, s)
    ensures Bounded(g, s')
  {
    match l
    case BeginPush(f) =>
      if !s.prod.PIdle? then s
      else if |f.payload| > MaxPayload(g) then s.(outcomes := s.outcomes + [Oversized])
      else s.(prod := PLoadSeq(ToPush(f), s.sh.writePos))
    case BeginReserve =>
      if s.prod.PIdle? then s.(prod := PLoadSeq(ToReserve, s.sh.writePos)) else s
    case Fill(j, b) =>
      if s.prod.PHeld? && j < MaxPayload(g) then
        var i := SlotIndex(g, s.prod.pos);
        s.(sh := s.sh.(slots := s.sh.slots[i := WithByte(s.sh.slots[i], FRAME_HEADER_LEN + j, b)]))
      else s
    case CommitHeld(id, len) =>
      if s.prod.PHeld? then BeginCommitAt(g, s, s.prod.pos, id, len) else s
    case BeginCommit(id, len) =>
      if s.prod.PIdle? || s.prod.PHeld? then
        s.(prod := PLoadSeq(ToCommit(id, len, s.prod.PHeld?), s.sh.writePos))
      else s
    case Abandon => if s.prod.PHeld? then s.(prod := PIdle) else s
    case ProducerTick => ProducerTickStep(g, s)
    case BeginRead(read) => if s.cons.CIdle? then s.(cons := CLoadSeq(read, s.sh.readPos)) else s
    case BeginAdvance => if s.cons.CPeeked? then s.(cons := CAdvance(s.cons.d, s.sh.readPos)) else s
    case DropPeek => if s.cons.CPeeked? then s.(cons := CIdle) else s
    case ConsumerTick => ConsumerTickStep(g, s)
    case Hostile(sh) => if Shaped(g, sh) then s.(sh := sh) else s
  }

  /** The state after `init_ring_control`, with both sides idle. */
  function Init(g: Geometry, slots: seq<seq<byte>>): (s: State)
    requires ValidGeometry(g) && |slots| == g.capacity
    requires forall i :: 0 <= i < g.capacity ==> |slots[i]| == g.segmentSize
    ensures Bounded(g, s)
  {
    State(Shared(0, 0, seq(g.capacity, i requires 0 <= i < g.capacity => i), slots), PIdle, CIdle, [], [], [])
  }

  function Run(g: Geometry, s: State, ls: seq<Label>): (s': State)
    requires ValidGeometry(g) && Bounded(g, s)
    ensures Bounded(g, s')
  {
    if ls == [] then s else Step(g, Run(g, s, ls[..|ls| - 1]), ls[|ls| - 1])
  }

  predicate Honest(ls: seq<Label>) { forall i :: 0 <= i < |ls| ==> !ls[i].Hostile? }

  // ── The invariant of honest runs ──

  function Expected(read: Read, f: Frame): seq<byte> {
    match read
    case PopInto => f.payload
    case PopIntoSlice(room) => f.payload[..Min(|f.payload|, room)]
    case Peek => Encode(f)
  }

  /** `d` carries the id and, up to the room given, the bytes of `f`. */
  predicate Faithful(d: Delivery, f: Frame) { d.id == f.id && d.bytes == Expected(d.read, f) }

  ghost predicate ProducerInv(g: Geometry, s: State)
    requires ValidGeometry(g) && Bounded(g, s)
  {
    var P, limit := |s.published|, |s.popped| + g.capacity;
    && (s.prod.PStoreWrite? ==> P > 0)
    && s.sh.writePos == (if s.prod.PStoreWrite? then P - 1 else P) % U64_SPAN
    && match s.prod
       case PIdle => true
       case PLoadSeq(want, pos) => pos == P % U64_SPAN && (want.ToCommit? && want.reserved ==> P < limit)
       case PHeld(pos) => pos == P % U64_SPAN && P < limit
       case PLoadRead(_, pos) => pos == P % U64_SPAN && P < limit
       case PCopy(job, pos, _, k) =>
         && pos == P % U64_SPAN && P < limit
         && s.sh.slots[SlotOf(g, P)][..k] == JobBytes(job)[..k]
       case PStoreWrite(pos, _) => pos == (P - 1) % U64_SPAN
  }

  ghost predicate ConsumerInv(s: State) {
    var C, P := |s.popped|, |s.published|;
    && (s.cons.CStoreRead? ==> C > 0)
    && s.sh.readPos == (if s.cons.CStoreRead? then C - 1 else C) % U64_SPAN
    && match s.cons
       case CIdle => true
       case CLoadSeq(_, pos) => pos == C % U64_SPAN
       case CHeader(_, pos, hdr) =>
         pos == C % U64_SPAN && C < P && hdr <= Encode(s.published[C])
       case CBody(read, pos, id, len, got) =>
         && pos == C % U64_SPAN && C < P
         && id == s.published[C].id && len == |s.published[C].payload|
         && got <= Expected(read, s.published[C])
       case CPeeked(d) => C < P && Faithful(d, s.published[C])
       case CAdvance(d, pos) => pos == C % U64_SPAN && C < P && Faithful(d, s.published[C])
       case CRelease(d, pos) => pos == C % U64_SPAN && C < P && Faithful(d, s.published[C])
       case CStoreRead(pos) => pos == (C - 1) % U64_SPAN
  }

  ghost predicate LogsInv(s: State) {
    && |s.popped| <= |s.published|
    && (forall i :: 0 <= i < |s.popped| ==> Faithful(s.popped[i], s.published[i]))
    && (forall i :: 0 <= i < |s.outcomes| ==> s.outcomes[i] != Outcome.Corrupt)
  }

  ghost predicate Inv(g: Geometry, s: State)
    requires ValidGeometry(g)
  {
    && Bounded(g, s)
    && Holds(g, s.sh, s.published, |s.popped|)
    && ProducerInv(g, s)
    && ConsumerInv(s)
    && LogsInv(s)
  }

  lemma InitInv(g: Geometry, slots: seq<seq<byte>>)
    requires ValidGeometry(g) && |slots| == g.capacity
    requires forall i :: 0 <= i < g.capacity ==> |slots[i]| == g.segmentSize
    ensures Inv(g, Init(g, slots))
  {
    forall p | 0 <= p < g.capacity ensures FreeAt(g, Init(g, slots).sh, p) {
      DivModUnique(p, g.capacity, 0, p);
      DivModUnique(p, U64_SPAN, 0, p);
    }
  }
}
