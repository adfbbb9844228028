/** What every interleaving of the slot ring keeps, and what follows for whole runs. */
module SlotTheorems {
  import opened Words
  import opened Frames
  import opened SlotRing
  import opened Copies
  import opened SlotSteps

  // ── Non-interference ──

  /** Publishing more frames and writing `seq` words or slots leaves the consumer's point valid. */
  lemma ConsumerUndisturbed(s: State, s': State)
    requires ConsumerInv(s)
    requires s'.cons == s.cons && s'.popped == s.popped && s'.sh.readPos == s.sh.readPos
    requires s.published <= s'.published
    ensures ConsumerInv(s')
  {
    hide Encode, Expected;
    assert |s.popped| < |s.published| ==> s'.published[|s.popped|] == s.published[|s.popped|];
  }

  /** Releasing frames leaves the producer's point, and a reserved or half-written slot, valid. */
  lemma ProducerUndisturbed(g: Geometry, s: State, s': State)
    requires ValidGeometry(g) && Bounded(g, s) && Bounded(g, s') && ProducerInv(g, s)
    requires s'.prod == s.prod && s'.published == s.published && s'.sh.writePos == s.sh.writePos
    requires s'.sh.slots == s.sh.slots && |s'.popped| >= |s.popped|
    ensures ProducerInv(g, s')
  {
  }

  // ── Producer steps ──

  lemma LoadSeqKeepsInv(g: Geometry, s: State)
    requires ValidGeometry(g) && Inv(g, s) && s.prod.PLoadSeq?
    ensures Inv(g, ProducerTickStep(g, s))
  {
    hide ConsumerInv, Encode, ProducerWindow, SlotOf, SlotIndex;
    ProducerWindowExact(g, s.sh, s.published, |s.popped|);
    ConsumerUndisturbed(s, ProducerTickStep(g, s));
  }

  lemma WriteSlotKeepsInv(g: Geometry, s: State, slot: seq<byte>, prod': Producer)
    requires ValidGeometry(g) && Inv(g, s) && |s.published| < |s.popped| + g.capacity
    requires |slot| == g.segmentSize && !s.prod.PStoreWrite?
    requires var s' := s.(sh := s.sh.(slots := s.sh.slots[SlotOf(g, |s.published|) := slot]), prod := prod');
             Bounded(g, s') && ProducerInv(g, s')
    ensures Inv(g, s.(sh := s.sh.(slots := s.sh.slots[SlotOf(g, |s.published|) := slot]), prod := prod'))
  {
    hide ConsumerInv, ProducerInv, Encode, SlotOf;
    WriteFreeSlotHolds(g, s.sh, s.published, |s.popped|, slot);
    ConsumerUndisturbed(s, s.(sh := s.sh.(slots := s.sh.slots[SlotOf(g, |s.published|) := slot]), prod := prod'));
  }

  lemma CopyByteKeepsInv(g: Geometry, s: State)
    requires ValidGeometry(g) && Inv(g, s) && s.prod.PCopy? && s.prod.k < |JobBytes(s.prod.job)|
    ensures Inv(g, ProducerTickStep(g, s))
  {
    hide ConsumerInv, Encode, SlotOf, SlotIndex;
    var P, k, bytes := |s.published|, s.prod.k, JobBytes(s.prod.job);
    IndexOfWrapped(g, P);
    var was, slot := s.sh.slots[SlotOf(g, P)], WithByte(s.sh.slots[SlotOf(g, P)], k, bytes[k]);
    assert slot[..k + 1] == was[..k] + [bytes[k]] == bytes[..k + 1];
    WriteSlotKeepsInv(g, s, slot, PCopy(s.prod.job, s.prod.pos, s.prod.wasEmpty, k + 1));
  }

  /** The slot of a finished copy holds the encoding of the frame the job publishes. */
  lemma FinishedCopySpellsFrame(slot: seq<byte>, job: Job)
    requires JobLen(job) < U32_SPAN && |slot| >= FRAME_HEADER_LEN + JobLen(job)
    requires slot[..|JobBytes(job)|] == JobBytes(job)
    ensures slot[..FRAME_HEADER_LEN + JobLen(job)] == Encode(PublishedBy(slot, job))
    ensures |PublishedBy(slot, job).payload| == JobLen(job)
  {
    hide EncodeHeader;
    match job
    case Push(f) =>
    case Commit(id, len) =>
      assert len % U32_SPAN == len;
      assert slot[..FRAME_HEADER_LEN + len] == slot[..FRAME_HEADER_LEN] + slot[FRAME_HEADER_LEN..FRAME_HEADER_LEN + len];
  }

  lemma PublishKeepsInv(g: Geometry, s: State)
    requires ValidGeometry(g) && Inv(g, s) && s.prod.PCopy? && s.prod.k == |JobBytes(s.prod.job)|
    ensures Inv(g, ProducerTickStep(g, s))
  {
    hide ConsumerInv, SlotOf, SlotIndex, Encode, WrappingAdd;
    var P, job, s' := |s.published|, s.prod.job, ProducerTickStep(g, s);
    IndexOfWrapped(g, P);
    WrapSuccessor(P);
    var slot := s.sh.slots[SlotOf(g, P)];
    var f := PublishedBy(slot, job);
    FinishedCopySpellsFrame(slot, job);
    PublishHolds(g, s.sh, s.published, |s.popped|, f);
    ConsumerUndisturbed(s, s');
    assert LogsInv(s');
  }

  lemma StoreWriteKeepsInv(g: Geometry, s: State)
    requires ValidGeometry(g) && Inv(g, s) && s.prod.PStoreWrite?
    ensures Inv(g, ProducerTickStep(g, s))
  {
    hide ConsumerInv, Encode, SlotOf, WrappingAdd;
    WrapSuccessor(|s.published| - 1);
    PositionsApart(g, s.sh, WrappingAdd(s.prod.pos, 1), s.sh.readPos, s.published, |s.popped|);
    ConsumerUndisturbed(s, ProducerTickStep(g, s));
  }

  lemma LoadReadKeepsInv(g: Geometry, s: State)
    requires ValidGeometry(g) && Inv(g, s) && s.prod.PLoadRead?
    ensures Inv(g, ProducerTickStep(g, s))
  {
    hide ConsumerInv, Encode, SlotOf;
    ConsumerUndisturbed(s, ProducerTickStep(g, s));
  }

  lemma ProducerTickKeepsInv(g: Geometry, s: State)
    requires ValidGeometry(g) && Inv(g, s)
    ensures Inv(g, ProducerTickStep(g, s))
  {
    assert Bounded(g, s);
    hide Inv, Bounded, Encode;
    match s.prod
    case PIdle =>
    case PHeld(_) =>
    case PLoadSeq(_, _) => LoadSeqKeepsInv(g, s);
    case PLoadRead(_, _) => LoadReadKeepsInv(g, s);
    case PCopy(job, _, _, k) =>
      ProducerCopyKeepsInv(g, s);
    case PStoreWrite(_, _) => StoreWriteKeepsInv(g, s);
  }

  lemma ProducerCopyKeepsInv(g: Geometry, s: State)
    requires ValidGeometry(g) && Inv(g, s) && s.prod.PCopy?
    ensures Inv(g, ProducerTickStep(g, s))
  {
    hide ProducerTickStep, Holds, ProducerInv, ConsumerInv, LogsInv;
    if s.prod.k < |JobBytes(s.prod.job)| { CopyByteKeepsInv(g, s); } else { PublishKeepsInv(g, s); }
  }

  /** A caller filling its reserved slot changes only bytes the producer owns. */
  lemma FillKeepsInv(g: Geometry, s: State, j: nat, b: byte)
    requires ValidGeometry(g) && Inv(g, s) && s.prod.PHeld? && j < MaxPayload(g)
    ensures Inv(g, Step(g, s, Fill(j, b)))
  {
    hide ConsumerInv, Encode, SlotOf, SlotIndex;
    IndexOfWrapped(g, |s.published|);
    WriteSlotKeepsInv(g, s, WithByte(s.sh.slots[SlotOf(g, |s.published|)], FRAME_HEADER_LEN + j, b), s.prod);
  }

  // ── Consumer steps ──

  lemma LookKeepsInv(g: Geometry, s: State)
    requires ValidGeometry(g) && Inv(g, s) && (s.cons.CLoadSeq? || s.cons.CAdvance?)
    ensures Inv(g, ConsumerTickStep(g, s))
  {
    hide ProducerInv, Encode, Expected, SlotOf, SlotIndex, IsReady;
    ConsumerWindowExact(g, s.sh, s.published, |s.popped|);
    ProducerUndisturbed(g, s, ConsumerTickStep(g, s));
  }

  /** The oldest unreleased frame as its slot shows it. */
  lemma FrontSlot(g: Geometry, s: State)
    requires ValidGeometry(g) && Inv(g, s) && |s.popped| < |s.published|
    ensures var C := |s.popped|; var e := Encode(s.published[C]);
            && |e| <= g.segmentSize && Fits(s.published[C], MaxPayload(g))
            && e <= s.sh.slots[SlotIndex(g, C % U64_SPAN)]
  {
    hide Encode, SlotOf, SlotIndex, ProducerInv, ConsumerInv;
    var C := |s.popped|;
    IndexOfWrapped(g, C);
    assert ReadyAt(g, s.sh, C, s.published[C]);
  }

  lemma HeaderByteKeepsInv(g: Geometry, s: State)
    requires ValidGeometry(g) && Inv(g, s) && s.cons.CHeader?
    ensures Inv(g, ConsumerTickStep(g, s))
  {
    hide ProducerInv, Encode, Expected, SlotOf, SlotIndex, DecodeHeader;
    var f, s' := s.published[|s.popped|], ConsumerTickStep(g, s);
    FrontSlot(g, s);
    HeaderOfEncoded(f);
    ProducerUndisturbed(g, s, s');
    var hdr := s.cons.hdr + [s.sh.slots[SlotIndex(g, s.cons.pos)][|s.cons.hdr|]];
    assert hdr <= Encode(f);
    assert hdr == Encode(f)[..|hdr|];
  }

  lemma ExpectedIsInSlot(read: Read, f: Frame)
    ensures |Expected(read, f)| == BodyLen(read, |f.payload|)
    ensures BodyStart(read) + BodyLen(read, |f.payload|) <= |Encode(f)|
    ensures Expected(read, f) == Encode(f)[BodyStart(read)..BodyStart(read) + BodyLen(read, |f.payload|)]
  {
    hide EncodeHeader;
  }

  lemma BodyByteKeepsInv(g: Geometry, s: State)
    requires ValidGeometry(g) && Inv(g, s) && s.cons.CBody?
    ensures Inv(g, ConsumerTickStep(g, s))
  {
    hide ProducerInv, Encode, Expected, SlotOf, SlotIndex;
    var f := s.published[|s.popped|];
    FrontSlot(g, s);
    ExpectedIsInSlot(s.cons.read, f);
    ProducerUndisturbed(g, s, ConsumerTickStep(g, s));
    var e := Expected(s.cons.read, f);
    if |s.cons.got| < |e| {
      var got := s.cons.got + [s.sh.slots[SlotIndex(g, s.cons.pos)][BodyStart(s.cons.read) + |s.cons.got|]];
      assert got <= e;
    } else {
      assert s.cons.got == e;
    }
  }

  lemma WrapLap(p: nat, lap: nat)
    requires lap < U64_SPAN
    ensures WrappingAdd(p % U64_SPAN, lap) == (p + lap) % U64_SPAN
  {
    ModAdd(p, lap, U64_SPAN);
  }

  lemma ReleaseKeepsInv(g: Geometry, s: State)
    requires ValidGeometry(g) && Inv(g, s) && s.cons.CRelease?
    ensures Inv(g, ConsumerTickStep(g, s))
  {
    hide ProducerInv, Encode, Expected, SlotOf, SlotIndex, WrappingAdd;
    var C, s' := |s.popped|, ConsumerTickStep(g, s);
    IndexOfWrapped(g, C);
    WrapLap(C, g.capacity);
    ReleaseHolds(g, s.sh, s.published, C);
    ProducerUndisturbed(g, s, s');
    assert LogsInv(s');
  }

  lemma StoreReadKeepsInv(g: Geometry, s: State)
    requires ValidGeometry(g) && Inv(g, s) && s.cons.CStoreRead?
    ensures Inv(g, ConsumerTickStep(g, s))
  {
    hide ProducerInv, Encode, SlotOf, SlotIndex, WrappingAdd;
    WrapSuccessor(|s.popped| - 1);
    PositionsApart(g, s.sh, s.sh.writePos, WrappingAdd(s.cons.pos, 1), s.published, |s.popped|);
    ProducerUndisturbed(g, s, ConsumerTickStep(g, s));
  }

  lemma ConsumerTickKeepsInv(g: Geometry, s: State)
    requires ValidGeometry(g) && Inv(g, s)
    ensures Inv(g, ConsumerTickStep(g, s))
  {
    assert Bounded(g, s);
    hide Inv, Bounded, Encode;
    match s.cons
    case CIdle =>
    case CPeeked(_) =>
    case CLoadSeq(_, _) => LookKeepsInv(g, s);
    case CAdvance(_, _) => LookKeepsInv(g, s);
    case CHeader(_, _, _) => HeaderByteKeepsInv(g, s);
    case CBody(_, _, _, _, _) => BodyByteKeepsInv(g, s);
    case CRelease(_, _) => ReleaseKeepsInv(g, s);
    case CStoreRead(_) => StoreReadKeepsInv(g, s);
  }

  // ── Whole runs ──

  /** Starting, committing, filling or abandoning an operation. */
  lemma BeginKeepsInv(g: Geometry, s: State, l: Label)
    requires ValidGeometry(g) && Inv(g, s)
    requires !l.Hostile? && !l.ProducerTick? && !l.ConsumerTick?
    ensures Inv(g, Step(g, s, l))
  {
    if l.Fill? && s.prod.PHeld? && l.j < MaxPayload(g) {
      FillKeepsInv(g, s, l.j, l.b);
    } else if l.BeginRead? || l.BeginAdvance? || l.DropPeek? {
      hide Encode, SlotOf, Expected, Holds, ProducerInv;
      ProducerUndisturbed(g, s, Step(g, s, l));
    } else {
      hide Encode, SlotOf, Holds, ConsumerInv;
      ConsumerUndisturbed(s, Step(g, s, l));
    }
  }

  lemma StepKeepsInv(g: Geometry, s: State, l: Label)
    requires ValidGeometry(g) && Inv(g, s) && !l.Hostile?
    ensures Inv(g, Step(g, s, l))
  {
    assert Bounded(g, s);
    hide Inv, Bounded, ProducerTickStep, ConsumerTickStep;
    if l.ProducerTick? { ProducerTickKeepsInv(g, s); }
    else if l.ConsumerTick? { ConsumerTickKeepsInv(g, s); }
    else { BeginKeepsInv(g, s, l); }
  }

  /** Every interleaving of honest steps keeps the invariant, however often positions wrap. */
  lemma {:induction false} RunKeepsInv(g: Geometry, s: State, ls: seq<Label>)
    requires ValidGeometry(g) && Inv(g, s) && Honest(ls)
    ensures Inv(g, Run(g, s, ls))
  {
    assert Bounded(g, s);
    hide Inv, Bounded, Step;
    if ls != [] {
      RunKeepsInv(g, s, ls[..|ls| - 1]);
      StepKeepsInv(g, Run(g, s, ls[..|ls| - 1]), ls[|ls| - 1]);
    }
  }

  /** A state some honest interleaving reaches from an initialised ring. */
  ghost predicate Reachable(g: Geometry, s: State)
    requires ValidGeometry(g)
  {
    exists slots: seq<seq<byte>>, ls: seq<Label> ::
      && |slots| == g.capacity && (forall i :: 0 <= i < g.capacity ==> |slots[i]| == g.segmentSize)
      && Honest(ls) && s == Run(g, Init(g, slots), ls)
  }

  lemma ReachableInv(g: Geometry, s: State)
    requires ValidGeometry(g) && Reachable(g, s)
    ensures Inv(g, s)
  {
    hide Inv, Run, Init, Bounded;
    var slots: seq<seq<byte>>, ls :|
      && |slots| == g.capacity && (forall i :: 0 <= i < g.capacity ==> |slots[i]| == g.segmentSize)
      && Honest(ls) && s == Run(g, Init(g, slots), ls);
    InitInv(g, slots);
    RunKeepsInv(g, Init(g, slots), ls);
  }

  /** FIFO: in every honest interleaving the frames released are the first frames published, in
      order, each with its id and its bytes untorn; no push ever reports corruption. */
  lemma DeliveredInOrder(g: Geometry, s: State)
    requires ValidGeometry(g) && Reachable(g, s)
    ensures |s.popped| <= |s.published| <= |s.popped| + g.capacity
    ensures forall i :: 0 <= i < |s.popped| ==> Faithful(s.popped[i], s.published[i])
    ensures Outcome.Corrupt !in s.outcomes
  {
    ReachableInv(g, s);
  }

  /** Mutual exclusion: a slot the producer writes, or lends to its caller, is none of the slots
      of unreleased frames; the slot the consumer reads is the slot of the oldest of them. */
  lemma SlotOwnership(g: Geometry, s: State)
    requires ValidGeometry(g) && Reachable(g, s)
    ensures s.prod.PHeld? || s.prod.PCopy? ==>
              forall p :: |s.popped| <= p < |s.published| ==> SlotOf(g, p) != SlotIndex(g, s.prod.pos)
    ensures s.cons.CHeader? || s.cons.CBody? || s.cons.CRelease? ==>
              |s.popped| < |s.published| && SlotIndex(g, s.cons.pos) == SlotOf(g, |s.popped|)
    ensures s.cons.CPeeked? || s.cons.CAdvance? ==>
              |s.popped| < |s.published| && SlotIndex(g, s.sh.readPos) == SlotOf(g, |s.popped|)
  {
    ReachableInv(g, s);
    hide Encode, SlotOf, SlotIndex, Expected;
    IndexOfWrapped(g, |s.published|);
    IndexOfWrapped(g, |s.popped|);
    if s.prod.PHeld? || s.prod.PCopy? {
      forall p | |s.popped| <= p < |s.published| ensures SlotOf(g, p) != SlotIndex(g, s.prod.pos) {
        SlotsDistinct(g, p, |s.published|);
      }
    }
  }

  /** A push, reserve or raw commit reports full exactly when `capacity` frames are unreleased at
      its load of `seq`. */
  lemma FullExactly(g: Geometry, s: State)
    requires ValidGeometry(g) && Reachable(g, s) && s.prod.PLoadSeq?
    ensures Bounded(g, s)
    ensures ProducerTickStep(g, s).outcomes == s.outcomes + [Full] <==> |s.published| - |s.popped| == g.capacity
  {
    ReachableInv(g, s);
    hide Encode, SlotOf, SlotIndex, ProducerWindow, ConsumerInv;
    ProducerWindowExact(g, s.sh, s.published, |s.popped|);
    var s' := ProducerTickStep(g, s);
    if |s'.outcomes| == |s.outcomes| + 1 {
      assert s'.outcomes[|s.outcomes|] == Full ==> |s.published| - |s.popped| == g.capacity;
    }
  }

  /** Wrapped positions of one window are equal only if the positions are. */
  lemma WrapSame(a: nat, b: nat)
    requires a <= b + U32_SPAN && b <= a + U32_SPAN
    ensures a % U64_SPAN == b % U64_SPAN <==> a == b
  {
    WrapDifference(a, b);
    WrapDifference(b, b);
  }

  /** `was_empty` is true exactly when every frame has been released and the last release has
      also stored its position: true implies an empty queue, and between whole consumer
      operations it is equivalent to one. */
  lemma WasEmptyExactly(g: Geometry, s: State)
    requires ValidGeometry(g) && Reachable(g, s) && s.prod.PLoadRead?
    ensures Bounded(g, s) && ProducerTickStep(g, s).prod.PCopy?
    ensures ProducerTickStep(g, s).prod.wasEmpty <==> |s.popped| == |s.published| && !s.cons.CStoreRead?
  {
    ReachableInv(g, s);
    hide Encode, SlotOf, SlotIndex, Expected;
    var P, C := |s.published|, |s.popped|;
    WrapSame(P, if s.cons.CStoreRead? then C - 1 else C);
  }

  /** A read finds a frame exactly when one is unreleased at its load of `seq`, and an advance after a
      peek is never turned away. */
  lemma ReadsFindFrames(g: Geometry, s: State)
    requires ValidGeometry(g) && Reachable(g, s)
    ensures Bounded(g, s)
    ensures s.cons.CLoadSeq? ==> (ConsumerTickStep(g, s).cons.CHeader? <==> |s.popped| < |s.published|)
    ensures s.cons.CAdvance? ==> ConsumerTickStep(g, s).cons.CRelease?
  {
    ReachableInv(g, s);
    hide Encode, SlotOf, SlotIndex, IsReady, Expected, ProducerInv, DecodeHeader;
    ConsumerWindowExact(g, s.sh, s.published, |s.popped|);
  }

  // ── Borrowed frames ──

  /** The slot at `read_pos` starts with these bytes. */
  ghost predicate FrontHolds(g: Geometry, s: State, f: Frame)
    requires ValidGeometry(g) && Bounded(g, s)
  {
    Encode(f) <= s.sh.slots[SlotIndex(g, s.sh.readPos)]
  }

  lemma PeekedFront(g: Geometry, s: State)
    requires ValidGeometry(g) && Inv(g, s) && (s.cons.CPeeked? || s.cons.CAdvance?)
    ensures |s.popped| < |s.published| && FrontHolds(g, s, s.published[|s.popped|])
    ensures s.cons.d.read.Peek? ==> s.cons.d.bytes == Encode(s.published[|s.popped|])
  {
    hide SlotOf, SlotIndex, ProducerInv, EncodeHeader;
    FrontSlot(g, s);
    IndexOfWrapped(g, |s.popped|);
  }

  predicate KeepsPeek(ls: seq<Label>) {
    forall i :: 0 <= i < |ls| ==> !ls[i].Hostile? && !ls[i].BeginAdvance? && !ls[i].DropPeek?
  }

  lemma PeekStays(g: Geometry, s: State, l: Label)
    requires ValidGeometry(g) && Bounded(g, s) && s.cons.CPeeked?
    requires !l.Hostile? && !l.BeginAdvance? && !l.DropPeek?
    ensures Step(g, s, l).cons == s.cons && Step(g, s, l).popped == s.popped && s.published <= Step(g, s, l).published
  {
    hide Encode, EncodeHeader, SlotIndex, ProducerWindow, DecodeHeader, IsReady;
  }

  /** A peeked slot keeps the bytes of the frame it lends out, whatever the producer does, until the
      consumer advances or gives the frame up. */
  lemma {:induction false} PeekedSlotKeepsBytes(g: Geometry, s: State, ls: seq<Label>)
    requires ValidGeometry(g) && Inv(g, s) && s.cons.CPeeked? && KeepsPeek(ls)
    ensures |s.popped| < |s.published|
    ensures var s' := Run(g, s, ls);
      && Inv(g, s') && s'.cons == s.cons && s'.popped == s.popped && s.published <= s'.published
      && FrontHolds(g, s', s.published[|s.popped|])
  {
    assert Bounded(g, s);
    PeekedFront(g, s);
    hide Inv, Bounded, Step, FrontHolds;
    if ls == [] {
      assert Run(g, s, ls) == s;
    } else {
      var ls', l := ls[..|ls| - 1], ls[|ls| - 1];
      PeekedSlotKeepsBytes(g, s, ls');
      StepKeepsInv(g, Run(g, s, ls'), l);
      PeekStays(g, Run(g, s, ls'), l);
      PeekedFront(g, Run(g, s, ls));
    }
  }

  // ── Reserve and commit ──

  predicate IsConsumer(l: Label) { l.BeginRead? || l.BeginAdvance? || l.DropPeek? || l.ConsumerTick? }

  predicate ConsumerOnly(ls: seq<Label>) { forall i :: 0 <= i < |ls| ==> IsConsumer(ls[i]) }

  /** Two states that agree on everything the producer owns. */
  predicate SameProducerSide(s: State, s': State) {
    && s'.prod == s.prod && s'.published == s.published && s'.outcomes == s.outcomes
    && s'.sh.slots == s.sh.slots && s'.sh.writePos == s.sh.writePos
  }

  /** No consumer step touches the producer's point, its logs, `write_pos` or any slot byte. */
  lemma {:induction false} ConsumerLeavesSlots(g: Geometry, s: State, ls: seq<Label>)
    requires ValidGeometry(g) && Bounded(g, s) && ConsumerOnly(ls)
    ensures SameProducerSide(s, Run(g, s, ls))
  {
    hide Encode, SlotIndex, IsReady, DecodeHeader, Bounded;
    if ls != [] { ConsumerLeavesSlots(g, s, ls[..|ls| - 1]); }
  }

  lemma ConsumerRunKeepsInv(g: Geometry, s: State, ls: seq<Label>)
    requires ValidGeometry(g) && Inv(g, s) && ConsumerOnly(ls)
    ensures Inv(g, Run(g, s, ls)) && SameProducerSide(s, Run(g, s, ls))
  {
    assert Bounded(g, s);
    hide Inv, Bounded, Run, SameProducerSide;
    ConsumerLeavesSlots(g, s, ls);
    RunKeepsInv(g, s, ls);
  }

  /** How a commit starts at position `pos` with the bytes of `s` in place. */
  ghost predicate CommitStarted(g: Geometry, s: State, s': State, pos: u64, id: u32, len: nat)
    requires ValidGeometry(g)
  {
    && s'.sh.slots == s.sh.slots && s'.published == s.published
    && (len <= MaxPayload(g) ==> s'.prod == PLoadRead(Commit(id, len), pos) && s'.outcomes == s.outcomes)
    && (len > MaxPayload(g) ==> s'.prod.PIdle? && s'.outcomes == s.outcomes + [Oversized])
  }

  /** The re-locating half of a commit after a reserve: the slot is free. */
  lemma RelocateNeverFull(g: Geometry, s: State, pos: u64, id: u32, len: nat)
    requires ValidGeometry(g) && Inv(g, s) && s.prod == PLoadSeq(ToCommit(id, len, true), pos)
    ensures CommitStarted(g, s, ProducerTickStep(g, s), pos, id, len)
  {
    hide Encode, SlotOf, SlotIndex, ProducerWindow, ConsumerInv;
    ProducerWindowExact(g, s.sh, s.published, |s.popped|);
  }

  lemma RelocateAfterConsumer(g: Geometry, s: State, pos: u64, id: u32, len: nat, ls: seq<Label>)
    requires ValidGeometry(g) && Inv(g, s) && s.prod == PLoadSeq(ToCommit(id, len, true), pos) && ConsumerOnly(ls)
    ensures CommitStarted(g, s, ProducerTickStep(g, Run(g, s, ls)), pos, id, len)
  {
    assert Bounded(g, s);
    hide Inv, Bounded, Run, ProducerTickStep, ConsumerOnly, ValidGeometry;
    ConsumerRunKeepsInv(g, s, ls);
    RelocateNeverFull(g, Run(g, s, ls), pos, id, len);
  }

  lemma BeginCommitLoads(g: Geometry, s: State, id: u32, len: nat)
    requires ValidGeometry(g) && Inv(g, s) && s.prod.PHeld?
    ensures Bounded(g, s) && s.sh.writePos == s.prod.pos
    ensures Step(g, s, BeginCommit(id, len)) == s.(prod := PLoadSeq(ToCommit(id, len, true), s.prod.pos))
  {
  }

  /** A commit made in a call of its own finds the slot reserved before it, whatever the consumer
      does in between: it never reports full and starts from the same position and bytes. */
  lemma CommitFindsReservedSlot(g: Geometry, s: State, id: u32, len: nat, ls: seq<Label>, ls': seq<Label>)
    requires ValidGeometry(g) && Inv(g, s) && s.prod.PHeld? && ConsumerOnly(ls) && ConsumerOnly(ls')
    ensures CommitStarted(g, s, ProducerTickStep(g, Run(g, Step(g, Run(g, s, ls), BeginCommit(id, len)), ls')),
                          s.prod.pos, id, len)
  {
    assert Bounded(g, s);
    hide Inv, Bounded, Run, Step, ProducerTickStep, ConsumerOnly, ValidGeometry;
    var s0 := Run(g, s, ls);
    ConsumerRunKeepsInv(g, s, ls);
    BeginCommitLoads(g, s0, id, len);
    var s1 := Step(g, s0, BeginCommit(id, len));
    StepKeepsInv(g, s0, BeginCommit(id, len));
    RelocateAfterConsumer(g, s1, s.prod.pos, id, len, ls');
  }

  // ── What a commit publishes ──

  ghost predicate Committing(s: State, id: u32, len: nat, pos: u64) {
    && (s.prod.PLoadRead? || s.prod.PCopy?)
    && s.prod.job == Commit(id, len) && s.prod.pos == pos
  }

  /** While committing, the payload stays; when the frame is published it is the payload. */
  ghost predicate CommitProgress(g: Geometry, s: State, s': State, id: u32, len: nat, pos: u64)
    requires ValidGeometry(g) && Bounded(g, s) && Bounded(g, s') && len <= MaxPayload(g)
  {
    var was := s.sh.slots[SlotIndex(g, pos)][FRAME_HEADER_LEN..FRAME_HEADER_LEN + len];
    || (&& Committing(s', id, len, pos) && s'.published == s.published
        && s'.sh.slots[SlotIndex(g, pos)][FRAME_HEADER_LEN..FRAME_HEADER_LEN + len] == was)
    || s.published + [Frame(id, was)] <= s'.published
  }

  lemma CommitStep(g: Geometry, s: State, s': State, l: Label, id: u32, len: nat, pos: u64)
    requires ValidGeometry(g) && Bounded(g, s) && Bounded(g, s') && len <= MaxPayload(g) && !l.Hostile?
    requires CommitProgress(g, s, s', id, len, pos)
    ensures CommitProgress(g, s, Step(g, s', l), id, len, pos)
  {
    hide Encode, EncodeHeader, SlotIndex, IsReady, DecodeHeader, ProducerWindow;
    var i, s'' := SlotIndex(g, pos), Step(g, s', l);
    if Committing(s', id, len, pos) && s'.published == s.published {
      var a, b := s'.sh.slots[i], s''.sh.slots[i];
      assert a[FRAME_HEADER_LEN..FRAME_HEADER_LEN + len] == b[FRAME_HEADER_LEN..FRAME_HEADER_LEN + len];
    }
  }

  /** Under every interleaving the frame a commit publishes carries exactly the payload bytes the
      reserved slot held when the commit began: the frame `try_push` of those bytes publishes. */
  lemma {:induction false} CommitPublishesReservedBytes(
    g: Geometry, s: State, ls: seq<Label>, id: u32, len: nat, pos: u64)
    requires ValidGeometry(g) && Bounded(g, s) && Honest(ls) && len <= MaxPayload(g)
    requires s.prod == PLoadRead(Commit(id, len), pos)
    ensures CommitProgress(g, s, Run(g, s, ls), id, len, pos)
  {
    if ls != [] {
      hide Bounded, Step, CommitProgress;
      CommitPublishesReservedBytes(g, s, ls[..|ls| - 1], id, len, pos);
      CommitStep(g, s, Run(g, s, ls[..|ls| - 1]), ls[|ls| - 1], id, len, pos);
    }
  }
}
