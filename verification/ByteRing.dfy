/** The packed byte-stream ring: frames laid end to end in a circular byte array, and the state
    machine of its producer and consumer, one load, store or copied byte per step. */
module ByteRing {
  import opened Words
  import opened Frames
  import opened Copies

  datatype Shared = Shared(writeIdx: u64, readIdx: u64, data: seq<byte>)

  /** Where a two-part copy of `n` bytes starting at `off` puts its byte `j`. */
  function WrapAt(cap: nat, off: nat, n: nat, j: nat): (a: nat)
    requires off < cap && j < n <= cap
    ensures a < cap && a == (off + j) % cap
  {
    var first := Min(n, cap - off);
    if j < first then
      DivModUnique(off + j, cap, 0, off + j);
      off + j
    else
      DivModUnique(off + j, cap, 1, off + j - cap);
      j - first
  }

  /** Where byte `k` of a frame starting at `off` lies: the header and the payload are copied one
      after the other, each in up to two parts. */
  function FrameAt(cap: nat, off: nat, len: nat, k: nat): (a: nat)
    requires off < cap && k < FRAME_HEADER_LEN + len <= cap
    ensures a < cap && a == (off + k) % cap
  {
    if k < FRAME_HEADER_LEN then WrapAt(cap, off, FRAME_HEADER_LEN, k)
    else
      ModAdd(off + FRAME_HEADER_LEN, k - FRAME_HEADER_LEN, cap);
      WrapAt(cap, (off + FRAME_HEADER_LEN) % cap, len, k - FRAME_HEADER_LEN)
  }

  datatype Room = Enough | Full | Corrupt

  /** The producer's space check; `used` may have been made up by the peer. */
  function RoomFor(cap: nat, write: u64, read: u64, total: nat): Room {
    var used := WrappingSub(write, read);
    if used > cap then Corrupt
    else if cap - used < total then Full
    else Enough
  }

  // ── Program points ──

  datatype Producer =
    | PIdle
    | PLoadRead(f: Frame, write: u64)          // `write_idx` loaded
    | PCopy(f: Frame, write: u64, k: nat)      // `k` bytes stored; publishes when all are

  datatype Read = PopInto | PopIntoSlice(room: nat)

  datatype Delivery = Delivery(read: Read, id: u32, bytes: seq<byte>)

  datatype Consumer =
    | CIdle
    | CLoadWrite(read: Read, at: u64)                                   // `read_idx` loaded
    | CHeader(read: Read, at: u64, avail: nat, hdr: seq<byte>)
    | CBody(read: Read, at: u64, id: u32, len: nat, got: seq<byte>)
    | CStore(d: Delivery, at: u64, len: nat)

  datatype Outcome = Pushed | RingFull | Oversized | RingCorrupt

  datatype State = State(
    sh: Shared,
    prod: Producer,
    cons: Consumer,
    published: seq<Frame>,
    popped: seq<Delivery>,
    outcomes: seq<Outcome>)

  datatype Label =
    | BeginPush(f: Frame)
    | ProducerTick
    | BeginRead(read: Read)
    | ConsumerTick
    | Hostile(sh: Shared)

  function Total(f: Frame): nat { FRAME_HEADER_LEN + |f.payload| }

  /** How many payload bytes a read copies. */
  function CopyLen(read: Read, len: nat): nat {
    if read.PopIntoSlice? then Min(len, read.room) else len
  }

  ghost predicate Bounded(cap: nat, s: State) {
    && |s.sh.data| == cap
    && (!s.prod.PIdle? ==> Total(s.prod.f) <= cap)
    && (s.prod.PCopy? ==> s.prod.k <= Total(s.prod.f))
    && (s.cons.CHeader? ==> |s.cons.hdr| < FRAME_HEADER_LEN <= cap)
    && (s.cons.CBody? ==> FRAME_HEADER_LEN + s.cons.len <= cap && |s.cons.got| <= CopyLen(s.cons.read, s.cons.len))
  }

  function ProducerStep(cap: nat, s: State): (s': State)
    requires Bounded(cap, s)
    ensures Bounded(cap, s')
  {
    match s.prod
    case PIdle => s
    case PLoadRead(f, write) =>
      (match RoomFor(cap, write, s.sh.readIdx, Total(f))
       case Corrupt => s.(prod := PIdle, outcomes := s.outcomes + [RingCorrupt])
       case Full => s.(prod := PIdle, outcomes := s.outcomes + [RingFull])
       case Enough => s.(prod := PCopy(f, write, 0)))
    case PCopy(f, write, k) =>
      if k < Total(f) then
        var a := FrameAt(cap, write % cap, |f.payload|, k);
        s.(sh := s.sh.(data := WithByte(s.sh.data, a, Encode(f)[k])), prod := PCopy(f, write, k + 1))
      else
        s.(sh := s.sh.(writeIdx := WrappingAdd(write, Total(f))),
           prod := PIdle,
           published := s.published + [f],
           outcomes := s.outcomes + [Pushed])
  }

  function ConsumerStep(cap: nat, s: State): (s': State)
    requires Bounded(cap, s)
    ensures Bounded(cap, s')
  {
    match s.cons
    case CIdle => s
    case CLoadWrite(read, at) =>
      var avail := Min(WrappingSub(s.sh.writeIdx, at), cap);
      if avail < FRAME_HEADER_LEN then s.(cons := CIdle) else s.(cons := CHeader(read, at, avail, []))
    case CHeader(read, at, avail, hdr) =>
      var hdr' := hdr + [s.sh.data[WrapAt(cap, at % cap, FRAME_HEADER_LEN, |hdr|)]];
      if |hdr'| < FRAME_HEADER_LEN then s.(cons := CHeader(read, at, avail, hdr'))
      else
        var (len, id) := DecodeHeader(hdr');
        if len > cap - FRAME_HEADER_LEN || avail < FRAME_HEADER_LEN + len then s.(cons := CIdle)
        else s.(cons := CBody(read, at, id, len, []))
    case CBody(read, at, id, len, got) =>
      if |got| < CopyLen(read, len) then
        var a := WrapAt(cap, (at % cap + FRAME_HEADER_LEN) % cap, CopyLen(read, len), |got|);
        s.(cons := CBody(read, at, id, len, got + [s.sh.data[a]]))
      else s.(cons := CStore(Delivery(read, id, got), at, len))
    case CStore(d, at, len) =>
      s.(sh := s.sh.(readIdx := WrappingAdd(at, FRAME_HEADER_LEN + len)),
         cons := CIdle,
         popped := s.popped + [d])
  }

  function Step(cap: nat, s: State, l: Label): (s': State)
    requires Bounded(cap, s)
    ensures Bounded(cap, s')
  {
    match l
    case BeginPush(f) =>
      if !s.prod.PIdle? then s
      else if Total(f) > cap then s.(outcomes := s.outcomes + [Oversized])
      else s.(prod := PLoadRead(f, s.sh.writeIdx))
    case ProducerTick => ProducerStep(cap, s)
    case BeginRead(read) => if s.cons.CIdle? then s.(cons := CLoadWrite(read, s.sh.readIdx)) else s
    case ConsumerTick => ConsumerStep(cap, s)
    case Hostile(sh) => if |sh.data| == cap then s.(sh := sh) else s
  }

  function Init(data: seq<byte>): (s: State)
    ensures Bounded(|data|, s)
  {
    State(Shared(0, 0, data), PIdle, CIdle, [], [], [])
  }

  function Run(cap: nat, s: State, ls: seq<Label>): (s': State)
    requires Bounded(cap, s)
    ensures Bounded(cap, s')
  {
    if ls == [] then s else Step(cap, Run(cap, s, ls[..|ls| - 1]), ls[|ls| - 1])
  }

  predicate Honest(ls: seq<Label>) { forall i :: 0 <= i < |ls| ==> !ls[i].Hostile? }
}
