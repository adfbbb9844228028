/** In-place production over the slot ring: a caller reserves a slot, fills payload bytes in any
    order, any number of times, and commits, with the consumer taking steps all the while. */
module SlotReserve {
  import opened Words
  import opened Options
  import opened Frames
  import opened SlotRing
  import opened SlotSteps
  import opened SlotTheorems

  // ── What the caller writes ──

  /** The byte the last write to offset `j` put there. */
  function LastFill(ls: seq<Label>, j: nat): Option<byte> {
    if ls == [] then None
    else
      match ls[|ls| - 1]
      case Fill(k, b) => if k == j then Some(b) else LastFill(ls[..|ls| - 1], j)
      case _ => LastFill(ls[..|ls| - 1], j)
  }

  /** The caller's writes leave these bytes at offsets `0..|bytes|`. */
  ghost predicate Spells(ls: seq<Label>, bytes: seq<byte>) {
    forall j :: 0 <= j < |bytes| ==> LastFill(ls, j) == Some(bytes[j])
  }

  /** Writing bytes one after the other spells them. */
  function FillsOf(bytes: seq<byte>): (ls: seq<Label>)
    ensures |ls| == |bytes| && forall i :: 0 <= i < |bytes| ==> ls[i] == Fill(i, bytes[i])
  {
    seq(|bytes|, i requires 0 <= i < |bytes| => Fill(i, bytes[i]))
  }

  lemma {:induction false} LastOfFills(bytes: seq<byte>, n: nat, j: nat)
    requires n <= |bytes|
    ensures LastFill(FillsOf(bytes)[..n], j) == if j < n then Some(bytes[j]) else None
  {
    var ls := FillsOf(bytes);
    if n > 0 {
      assert ls[..n][..n - 1] == ls[..n - 1];
      LastOfFills(bytes, n - 1, j);
    }
  }

  lemma FillsOfSpell(bytes: seq<byte>)
    ensures Spells(FillsOf(bytes), bytes) && Filling(FillsOf(bytes))
  {
    hide LastFill;
    assert FillsOf(bytes)[..|bytes|] == FillsOf(bytes);
    forall j | 0 <= j < |bytes| ensures LastFill(FillsOf(bytes), j) == Some(bytes[j]) { LastOfFills(bytes, |bytes|, j); }
  }

  /** Only writes into the reserved slot, and consumer steps. */
  predicate Filling(ls: seq<Label>) { forall i :: 0 <= i < |ls| ==> ls[i].Fill? || IsConsumer(ls[i]) }

  /** Only steps of a running producer operation, and consumer steps. */
  predicate Ticking(ls: seq<Label>) { forall i :: 0 <= i < |ls| ==> ls[i].ProducerTick? || IsConsumer(ls[i]) }

  function Ticks(ls: seq<Label>): nat {
    if ls == [] then 0 else Ticks(ls[..|ls| - 1]) + if ls[|ls| - 1].ProducerTick? then 1 else 0
  }

  /** What the slot at position `pos` holds behind its header. */
  function PayloadAt(g: Geometry, s: State, pos: u64): (p: seq<byte>)
    requires ValidGeometry(g) && Bounded(g, s)
    ensures |p| == MaxPayload(g)
  {
    s.sh.slots[SlotIndex(g, pos)][FRAME_HEADER_LEN..]
  }

  lemma ConsumerStepLeaves(g: Geometry, s: State, l: Label)
    requires ValidGeometry(g) && Bounded(g, s) && IsConsumer(l)
    ensures SameProducerSide(s, Step(g, s, l))
  {
    hide Encode, SlotIndex, IsReady, DecodeHeader, Bounded;
  }

  lemma FillStep(g: Geometry, s: State, j: nat, b: byte)
    requires ValidGeometry(g) && Bounded(g, s) && s.prod.PHeld? && j < MaxPayload(g)
    ensures var s' := Step(g, s, Fill(j, b));
      && s' == s.(sh := s.sh.(slots := s'.sh.slots))
      && PayloadAt(g, s', s.prod.pos) == PayloadAt(g, s, s.prod.pos)[j := b]
  {
    hide SlotIndex;
  }

  /** After any writes and consumer steps the slot is still held, and holds what was written last. */
  lemma {:induction false} FillsLand(g: Geometry, s: State, ls: seq<Label>, j: nat)
    requires ValidGeometry(g) && Bounded(g, s) && s.prod.PHeld? && Filling(ls) && j < MaxPayload(g)
    ensures var s' := Run(g, s, ls);
      && s'.prod == s.prod && s'.published == s.published && s'.outcomes == s.outcomes
      && s'.sh.writePos == s.sh.writePos
      && PayloadAt(g, s', s.prod.pos)[j] ==
           match LastFill(ls, j) case Some(b) => b case None => PayloadAt(g, s, s.prod.pos)[j]
  {
    hide Bounded, Step, SlotIndex;
    if ls != [] {
      var ls', l := ls[..|ls| - 1], ls[|ls| - 1];
      FillsLand(g, s, ls', j);
      var s' := Run(g, s, ls');
      if l.Fill? {
        if l.j < MaxPayload(g) { FillStep(g, s', l.j, l.b); } else { FillOutside(g, s', l.j, l.b); }
      } else {
        ConsumerStepLeaves(g, s', l);
      }
    }
  }

  lemma FillOutside(g: Geometry, s: State, j: nat, b: byte)
    requires ValidGeometry(g) && Bounded(g, s) && j >= MaxPayload(g)
    ensures Step(g, s, Fill(j, b)) == s
  {
  }

  // ── From reserve to publication ──

  /** Steps the producer still has to take after a commit was called. */
  const HELD_TICKS: nat := FRAME_HEADER_LEN + 3
  const RAW_TICKS: nat := HELD_TICKS + 1

  /** `left` producer steps before the end of a commit of `bytes` begun in state `was`. */
  ghost predicate Finishing(g: Geometry, was: State, s: State, id: u32, bytes: seq<byte>, pos: u64, left: nat)
    requires ValidGeometry(g) && Bounded(g, s)
  {
    var job := Commit(id, |bytes|);
    if left <= 1 then
      && s.published == was.published + [Frame(id, bytes)]
      && if left == 1 then s.prod.PStoreWrite? && s.outcomes == was.outcomes
         else s.prod.PIdle? && exists e :: s.outcomes == was.outcomes + [Pushed(e)]
    else
      && s.published == was.published && s.outcomes == was.outcomes && bytes <= PayloadAt(g, s, pos)
      && if left <= FRAME_HEADER_LEN + 2 then s.prod.PCopy? && s.prod == PCopy(job, pos, s.prod.wasEmpty, FRAME_HEADER_LEN + 2 - left)
         else if left == HELD_TICKS then s.prod == PLoadRead(job, pos)
         else left == RAW_TICKS && s.prod == PLoadSeq(ToCommit(id, |bytes|, true), pos)
  }

  lemma ConsumerKeepsFinishing(g: Geometry, was: State, s: State, s': State, id: u32, bytes: seq<byte>, pos: u64, left: nat)
    requires ValidGeometry(g) && Bounded(g, s) && Bounded(g, s') && Finishing(g, was, s, id, bytes, pos, left)
    requires SameProducerSide(s, s')
    ensures Finishing(g, was, s', id, bytes, pos, left)
  {
    hide SlotIndex;
  }

  lemma RelocateFinishing(g: Geometry, was: State, s: State, id: u32, bytes: seq<byte>, pos: u64)
    requires ValidGeometry(g) && Inv(g, s) && |bytes| <= MaxPayload(g)
    requires Finishing(g, was, s, id, bytes, pos, RAW_TICKS)
    ensures Finishing(g, was, ProducerTickStep(g, s), id, bytes, pos, HELD_TICKS)
  {
    hide SlotIndex, Holds, ProducerInv, ConsumerInv, LogsInv;
    RelocateNeverFull(g, s, pos, id, |bytes|);
    hide ProducerTickStep;
  }

  lemma CopyFinishing(g: Geometry, was: State, s: State, id: u32, bytes: seq<byte>, pos: u64, left: nat)
    requires ValidGeometry(g) && Bounded(g, s) && |bytes| <= MaxPayload(g) && left != RAW_TICKS
    requires Finishing(g, was, s, id, bytes, pos, left)
    ensures Finishing(g, was, ProducerTickStep(g, s), id, bytes, pos, if left == 0 then 0 else left - 1)
  {
    hide SlotIndex, EncodeHeader, Encode;
    var s' := ProducerTickStep(g, s);
    if 2 < left <= FRAME_HEADER_LEN + 2 {
      assert PayloadAt(g, s', pos) == PayloadAt(g, s, pos);
    } else if left == 2 {
      assert s.sh.slots[SlotIndex(g, pos)][FRAME_HEADER_LEN..FRAME_HEADER_LEN + |bytes|] == PayloadAt(g, s, pos)[..|bytes|] == bytes;
    } else if left == 1 {
      assert s'.outcomes == was.outcomes + [Pushed(s.prod.wasEmpty)];
    }
  }

  /** What one step leaves of `n` producer steps. */
  function Fewer(n: nat, l: Label): nat { if l.ProducerTick? && n > 0 then n - 1 else n }

  lemma FinishingStep(g: Geometry, was: State, s: State, l: Label, id: u32, bytes: seq<byte>, pos: u64, left: nat)
    requires ValidGeometry(g) && Inv(g, s) && |bytes| <= MaxPayload(g) && (l.ProducerTick? || IsConsumer(l))
    requires Finishing(g, was, s, id, bytes, pos, left)
    ensures Finishing(g, was, Step(g, s, l), id, bytes, pos, Fewer(left, l))
  {
    assert Bounded(g, s);
    hide Inv, Bounded, Finishing, Step, ProducerTickStep;
    if l.ProducerTick? {
      TickIs(g, s);
      if left == RAW_TICKS { RelocateFinishing(g, was, s, id, bytes, pos); }
      else { CopyFinishing(g, was, s, id, bytes, pos, left); }
    } else {
      ConsumerStepLeaves(g, s, l);
      ConsumerKeepsFinishing(g, was, s, Step(g, s, l), id, bytes, pos, left);
    }
  }

  /** Producer steps bring the commit to its end, and consumer steps do not disturb it. */
  lemma {:induction false} FinishingRun(
    g: Geometry, was: State, s: State, ls: seq<Label>, id: u32, bytes: seq<byte>, pos: u64, left: nat)
    requires ValidGeometry(g) && Inv(g, s) && |bytes| <= MaxPayload(g) && Ticking(ls)
    requires Finishing(g, was, s, id, bytes, pos, left)
    ensures Inv(g, Run(g, s, ls))
    ensures Finishing(g, was, Run(g, s, ls), id, bytes, pos, Remaining(left, ls))
  {
    assert Bounded(g, s);
    hide Inv, Bounded, Finishing, Step;
    if ls != [] {
      var ls', l := ls[..|ls| - 1], ls[|ls| - 1];
      FinishingRun(g, was, s, ls', id, bytes, pos, left);
      StepKeepsInv(g, Run(g, s, ls'), l);
      FinishingStep(g, was, Run(g, s, ls'), l, id, bytes, pos, Remaining(left, ls'));
    }
  }

  function Remaining(left: nat, ls: seq<Label>): nat { if left < Ticks(ls) then 0 else left - Ticks(ls) }

  lemma RunSnoc(g: Geometry, s: State, ls: seq<Label>, l: Label)
    requires ValidGeometry(g) && Bounded(g, s)
    ensures Run(g, s, ls + [l]) == Step(g, Run(g, s, ls), l)
  {
    hide Step, Bounded;
    assert (ls + [l])[..|ls|] == ls;
  }

  lemma {:induction false} RunConcat(g: Geometry, s: State, a: seq<Label>, b: seq<Label>)
    requires ValidGeometry(g) && Bounded(g, s)
    ensures Run(g, s, a + b) == Run(g, Run(g, s, a), b)
  {
    hide Step, Bounded;
    if b == [] {
      assert a + b == a;
    } else {
      var b', l := b[..|b| - 1], b[|b| - 1];
      assert a + b == (a + b') + [l];
      RunConcat(g, s, a, b');
      RunSnoc(g, s, a + b', l);
    }
  }

  /** A reserve that finds room at its load of `seq` holds the next slot. */
  lemma ReserveHolds(g: Geometry, s: State, c: seq<Label>)
    requires ValidGeometry(g) && Inv(g, s) && s.prod.PIdle? && ConsumerOnly(c)
    requires var s0 := Run(g, Step(g, s, BeginReserve), c); |s0.published| < |s0.popped| + g.capacity
    ensures var s1 := ProducerTickStep(g, Run(g, Step(g, s, BeginReserve), c));
      && Inv(g, s1) && s1.prod == PHeld(s.sh.writePos)
      && s1.published == s.published && s1.outcomes == s.outcomes && s1.sh.writePos == s.sh.writePos
  {
    assert Bounded(g, s);
    var begun := Step(g, s, BeginReserve);
    assert begun == s.(prod := PLoadSeq(ToReserve, s.sh.writePos));
    hide Inv, Bounded, Run, Step, ProducerTickStep;
    StepKeepsInv(g, s, BeginReserve);
    ConsumerRunKeepsInv(g, begun, c);
    ReserveTick(g, Run(g, begun, c));
    ProducerTickKeepsInv(g, Run(g, begun, c));
  }

  lemma ReserveTick(g: Geometry, s: State)
    requires ValidGeometry(g) && Inv(g, s) && s.prod.PLoadSeq? && s.prod.want.ToReserve?
    requires |s.published| < |s.popped| + g.capacity
    ensures ProducerTickStep(g, s) == s.(prod := PHeld(s.prod.pos))
  {
    hide SlotIndex, ProducerWindow, ConsumerInv, Encode;
    ProducerWindowExact(g, s.sh, s.published, |s.popped|);
  }

  /** Either way of committing what was filled in begins a commit of those bytes. */
  lemma CommitBegins(g: Geometry, s: State, commit: Label, id: u32, bytes: seq<byte>)
    requires ValidGeometry(g) && Inv(g, s) && s.prod.PHeld? && |bytes| <= MaxPayload(g)
    requires bytes <= PayloadAt(g, s, s.prod.pos)
    requires commit == CommitHeld(id, |bytes|) || commit == BeginCommit(id, |bytes|)
    ensures Finishing(g, s, Step(g, s, commit), id, bytes, s.prod.pos, if commit.CommitHeld? then HELD_TICKS else RAW_TICKS)
  {
    hide SlotIndex, Holds, ConsumerInv, LogsInv;
    if commit.BeginCommit? { BeginCommitLoads(g, s, id, |bytes|); }
  }

  lemma SpelledPayload(g: Geometry, s: State, fills: seq<Label>, bytes: seq<byte>)
    requires ValidGeometry(g) && Bounded(g, s) && s.prod.PHeld? && Filling(fills) && Spells(fills, bytes)
    requires |bytes| <= MaxPayload(g)
    ensures var s' := Run(g, s, fills);
      && s'.prod == s.prod && s'.published == s.published && s'.outcomes == s.outcomes
      && bytes <= PayloadAt(g, s', s.prod.pos)
  {
    hide Bounded, Run, PayloadAt, LastFill, Filling;
    FillsLand(g, s, fills, 0);
    forall j | 0 <= j < |bytes| ensures PayloadAt(g, Run(g, s, fills), s.prod.pos)[j] == bytes[j] {
      FillsLand(g, s, fills, j);
    }
  }

  /** The fills and the commit of a held slot, with the consumer taking steps all along. */
  lemma HeldToPublished(g: Geometry, s: State, fills: seq<Label>, commit: Label, rest: seq<Label>, id: u32, bytes: seq<byte>)
    requires ValidGeometry(g) && Inv(g, s) && s.prod.PHeld? && Filling(fills) && Spells(fills, bytes)
    requires |bytes| <= MaxPayload(g) && Ticking(rest)
    requires commit == CommitHeld(id, |bytes|) || commit == BeginCommit(id, |bytes|)
    ensures var s' := Run(g, Step(g, Run(g, s, fills), commit), rest);
      var need := if commit.CommitHeld? then HELD_TICKS else RAW_TICKS;
      && Inv(g, s')
      && Finishing(g, Run(g, s, fills), s', id, bytes, s.prod.pos, Remaining(need, rest))
      && Run(g, s, fills).published == s.published && Run(g, s, fills).outcomes == s.outcomes
  {
    assert Bounded(g, s);
    hide Inv, Bounded, Run, Step, Spells, Finishing, PayloadAt;
    RunKeepsInv(g, s, fills);
    SpelledPayload(g, s, fills, bytes);
    var s2 := Run(g, s, fills);
    CommitBegins(g, s2, commit, id, bytes);
    StepKeepsInv(g, s2, commit);
    var need := if commit.CommitHeld? then HELD_TICKS else RAW_TICKS;
    FinishingRun(g, s2, Step(g, s2, commit), rest, id, bytes, s.prod.pos, need);
  }

  /** In-place production: reserve, fill, commit through the reservation or in a call of its own, and let
      the producer finish. Whatever the consumer does in between, the one frame published is the one
      the fills spell, and the producer reports success. */
  lemma ProducedInPlace(g: Geometry, s: State, c: seq<Label>, fills: seq<Label>, commit: Label, rest: seq<Label>,
                        id: u32, bytes: seq<byte>)
    requires ValidGeometry(g) && Inv(g, s) && s.prod.PIdle? && ConsumerOnly(c)
    requires var s0 := Run(g, s, [BeginReserve] + c); |s0.published| < |s0.popped| + g.capacity
    requires Filling(fills) && Spells(fills, bytes) && |bytes| <= MaxPayload(g) && Ticking(rest)
    requires commit == CommitHeld(id, |bytes|) || commit == BeginCommit(id, |bytes|)
    ensures var s' := Run(g, s, [BeginReserve] + c + [ProducerTick] + fills + [commit] + rest);
      var need := if commit.CommitHeld? then HELD_TICKS else RAW_TICKS;
      && s'.published == s.published + (if Ticks(rest) + 1 < need then [] else [Frame(id, bytes)])
      && (Ticks(rest) >= need ==> s'.prod.PIdle? && exists e :: s'.outcomes == s.outcomes + [Pushed(e)])
  {
    assert Bounded(g, s);
    hide Inv, Bounded, Run, Step, Spells, Filling, Ticking, ProducerTickStep, ConsumerOnly, ValidGeometry, Ticks;
    RunOne(g, s, BeginReserve);
    RunConcat(g, s, [BeginReserve], c);
    ReserveHolds(g, s, c);
    var s1 := ProducerTickStep(g, Run(g, Step(g, s, BeginReserve), c));
    PhasesRun(g, s, c, fills, commit, rest);
    HeldToPublished(g, s1, fills, commit, rest, id, bytes);
  }

  /** The run in its phases. */
  lemma PhasesRun(g: Geometry, s: State, c: seq<Label>, fills: seq<Label>, commit: Label, rest: seq<Label>)
    requires ValidGeometry(g) && Bounded(g, s)
    ensures Run(g, s, [BeginReserve] + c + [ProducerTick] + fills + [commit] + rest)
         == Run(g, Step(g, Run(g, ProducerTickStep(g, Run(g, Step(g, s, BeginReserve), c)), fills), commit), rest)
  {
    hide Bounded, Run, Step, ValidGeometry, ProducerTickStep;
    var l1 := [BeginReserve] + c + [ProducerTick];
    RunOne(g, s, BeginReserve);
    RunConcat(g, s, [BeginReserve], c);
    RunSnoc(g, s, [BeginReserve] + c, ProducerTick);
    TickIs(g, Run(g, s, [BeginReserve] + c));
    RunConcat(g, s, l1, fills);
    RunSnoc(g, s, l1 + fills, commit);
    RunConcat(g, s, l1 + fills + [commit], rest);
  }

  /** Giving a reserved slot up after any writes leaves the queue, the positions and the reports as they
      were. */
  lemma AbandonedInPlace(g: Geometry, s: State, fills: seq<Label>)
    requires ValidGeometry(g) && Inv(g, s) && s.prod.PHeld? && Filling(fills)
    ensures var s' := Step(g, Run(g, s, fills), Abandon);
      && Inv(g, s') && s'.prod.PIdle?
      && s'.published == s.published && s'.outcomes == s.outcomes && s'.sh.writePos == s.sh.writePos
  {
    assert Bounded(g, s);
    RunKeepsInv(g, s, fills);
    FillsLand(g, s, fills, 0);
    var s2 := Run(g, s, fills);
    hide Inv, Run, PayloadAt;
    StepKeepsInv(g, s2, Abandon);
  }

  /** Committing more than a slot holds reports it, publishes nothing and gives the slot up. */
  lemma CommitTooLong(g: Geometry, s: State, id: u32, len: nat)
    requires ValidGeometry(g) && Inv(g, s) && s.prod.PHeld? && len > MaxPayload(g)
    ensures Step(g, s, CommitHeld(id, len)) == s.(prod := PIdle, outcomes := s.outcomes + [Oversized])
    ensures ProducerTickStep(g, Step(g, s, BeginCommit(id, len))) == s.(prod := PIdle, outcomes := s.outcomes + [Oversized])
  {
    hide SlotIndex, ProducerWindow, ConsumerInv, LogsInv, Encode;
    BeginCommitLoads(g, s, id, len);
    ProducerWindowExact(g, s.sh, s.published, |s.popped|);
  }

  lemma RunOne(g: Geometry, s: State, l: Label)
    requires ValidGeometry(g) && Bounded(g, s)
    ensures Run(g, s, [l]) == Step(g, s, l)
  {
    hide Step, Bounded;
    assert [l][..0] == [];
  }

  lemma TickIs(g: Geometry, s: State)
    requires ValidGeometry(g) && Bounded(g, s)
    ensures Step(g, s, ProducerTick) == ProducerTickStep(g, s)
  {
  }
}
