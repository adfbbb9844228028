/** A whole operation is its steps run without interruption: the state machine's push and pop,
    undisturbed, have the effects the ring object's methods are specified with. */
module SlotWhole {
  import opened Words
  import opened Frames
  import opened SlotRing
  import S = SlotSteps
  import O = SlotObject
  import R = SlotReserve
  import opened Copies
  import opened Options

  function ProducerTicks(g: Geometry, s: S.State, n: nat): (s': S.State)
    requires ValidGeometry(g) && S.Bounded(g, s)
    ensures S.Bounded(g, s')
  {
    if n == 0 then s else S.ProducerTickStep(g, ProducerTicks(g, s, n - 1))
  }

  function ConsumerTicks(g: Geometry, s: S.State, n: nat): (s': S.State)
    requires ValidGeometry(g) && S.Bounded(g, s)
    ensures S.Bounded(g, s')
  {
    if n == 0 then s else S.ConsumerTickStep(g, ConsumerTicks(g, s, n - 1))
  }

  lemma {:induction false} ProducerTicksAdd(g: Geometry, s: S.State, m: nat, n: nat)
    requires ValidGeometry(g) && S.Bounded(g, s)
    ensures ProducerTicks(g, s, m + n) == ProducerTicks(g, ProducerTicks(g, s, m), n)
  {
    hide S.Bounded, S.ProducerTickStep;
    if n > 0 { ProducerTicksAdd(g, s, m, n - 1); }
  }

  lemma {:induction false} ConsumerTicksAdd(g: Geometry, s: S.State, m: nat, n: nat)
    requires ValidGeometry(g) && S.Bounded(g, s)
    ensures ConsumerTicks(g, s, m + n) == ConsumerTicks(g, ConsumerTicks(g, s, m), n)
  {
    hide S.Bounded, S.ConsumerTickStep;
    if n > 0 { ConsumerTicksAdd(g, s, m, n - 1); }
  }

  lemma NothingCopied(s: seq<byte>, bytes: seq<byte>)
    ensures Splice(s, 0, bytes[..0]) == s
  {
    SpliceNothing(s, 0);
  }

  lemma SpliceOneMore(s: seq<byte>, bytes: seq<byte>, k: nat)
    requires k < |bytes| <= |s|
    ensures WithByte(Splice(s, 0, bytes[..k]), k, bytes[k]) == Splice(s, 0, bytes[..k + 1])
  {
  }

  /** The state while job `job` has copied `k` bytes over the slots of `s`. */
  function Copied(g: Geometry, s: S.State, job: S.Job, pos: u64, wasEmpty: bool, k: nat): S.State
    requires ValidGeometry(g) && Shaped(g, s.sh) && S.JobLen(job) <= MaxPayload(g) && k <= |S.JobBytes(job)| <= g.segmentSize
  {
    var i := SlotIndex(g, pos);
    s.(prod := S.PCopy(job, pos, wasEmpty, k),
       sh := s.sh.(slots := s.sh.slots[i := Splice(s.sh.slots[i], 0, S.JobBytes(job)[..k])]))
  }

  lemma CopyTick(g: Geometry, s: S.State, job: S.Job, pos: u64, wasEmpty: bool, k: nat)
    requires ValidGeometry(g) && Shaped(g, s.sh) && S.JobLen(job) <= MaxPayload(g) && k < |S.JobBytes(job)| <= g.segmentSize
    requires S.Bounded(g, Copied(g, s, job, pos, wasEmpty, k))
    ensures S.ProducerTickStep(g, Copied(g, s, job, pos, wasEmpty, k)) == Copied(g, s, job, pos, wasEmpty, k + 1)
  {
    hide Encode, EncodeHeader, SlotIndex, Splice, WithByte, S.JobBytes;
    SpliceOneMore(s.sh.slots[SlotIndex(g, pos)], S.JobBytes(job), k);
  }

  lemma CopiedNone(g: Geometry, s: S.State, job: S.Job, pos: u64, wasEmpty: bool)
    requires ValidGeometry(g) && Shaped(g, s.sh) && s.prod == S.PCopy(job, pos, wasEmpty, 0)
    requires S.JobLen(job) <= MaxPayload(g) && |S.JobBytes(job)| <= g.segmentSize
    ensures Copied(g, s, job, pos, wasEmpty, 0) == s
  {
    hide SlotIndex, Splice, S.JobBytes;
    var i := SlotIndex(g, pos);
    NothingCopied(s.sh.slots[i], S.JobBytes(job));
    assert s.sh.slots[i := s.sh.slots[i]] == s.sh.slots;
  }

  /** Copying byte by byte is one copy. */
  lemma {:induction false} CopyAlone(g: Geometry, s: S.State, job: S.Job, pos: u64, wasEmpty: bool, k: nat)
    requires ValidGeometry(g) && S.Bounded(g, s) && s.prod == S.PCopy(job, pos, wasEmpty, 0)
    requires S.JobLen(job) <= MaxPayload(g) && k <= |S.JobBytes(job)| <= g.segmentSize
    ensures ProducerTicks(g, s, k) == Copied(g, s, job, pos, wasEmpty, k)
  {
    if k == 0 {
      hide Copied;
      CopiedNone(g, s, job, pos, wasEmpty);
    } else {
      hide S.ProducerTickStep, Copied, S.JobBytes, SlotIndex, Splice, Encode, Shaped;
      CopyAlone(g, s, job, pos, wasEmpty, k - 1);
      CopyTick(g, s, job, pos, wasEmpty, k - 1);
    }
  }

  lemma PushStarts(g: Geometry, s: S.State, f: Frame)
    requires ValidGeometry(g) && S.Bounded(g, s) && s.prod.PIdle? && |f.payload| <= MaxPayload(g)
    requires SlotWindow(g, s.sh.seqs[SlotIndex(g, s.sh.writePos)], s.sh.writePos) == Free
    ensures ProducerTicks(g, S.Step(g, s, S.BeginPush(f)), 2)
         == s.(prod := S.PCopy(S.Push(f), s.sh.writePos, s.sh.readPos == s.sh.writePos, 0))
  {
    hide Encode, SlotIndex, ProducerWindow, SlotWindow;
    WindowsExactly(g, s.sh.seqs[SlotIndex(g, s.sh.writePos)], s.sh.writePos);
    var s0 := S.Step(g, s, S.BeginPush(f));
    assert ProducerTicks(g, s0, 1) == S.ProducerTickStep(g, s0);
  }

  lemma PushFinishes(g: Geometry, s: S.State, f: Frame, pos: u64, wasEmpty: bool)
    requires ValidGeometry(g) && S.Bounded(g, s) && s.prod == S.PCopy(S.Push(f), pos, wasEmpty, |Encode(f)|)
    ensures ProducerTicks(g, s, 2)
         == s.(sh := s.sh.(seqs := s.sh.seqs[SlotIndex(g, pos) := WrappingAdd(pos, 1)], writePos := WrappingAdd(pos, 1)),
               prod := S.PIdle, published := s.published + [f], outcomes := s.outcomes + [S.Pushed(wasEmpty)])
  {
    hide Encode, SlotIndex, WrappingAdd;
    assert ProducerTicks(g, s, 1) == S.ProducerTickStep(g, s);
  }

  /** An undisturbed push of a frame that fits, on a free slot, takes `n + 4` steps after loading
      `write_pos` and has the effect of `TryPush`. */
  lemma PushAlone(g: Geometry, s: S.State, f: Frame)
    requires ValidGeometry(g) && S.Bounded(g, s) && s.prod.PIdle? && |f.payload| <= MaxPayload(g)
    requires SlotWindow(g, s.sh.seqs[SlotIndex(g, s.sh.writePos)], s.sh.writePos) == Free
    ensures ProducerTicks(g, S.Step(g, s, S.BeginPush(f)), 2 + |Encode(f)| + 2)
         == s.(sh := O.AfterPush(g, s.sh, f),
               published := s.published + [f],
               outcomes := s.outcomes + [S.Pushed(s.sh.readPos == s.sh.writePos)])
  {
    hide Encode, SlotIndex, SlotWindow, WrappingAdd, Splice, S.Step, S.ProducerTickStep, ProducerTicks;
    var n, pos := |Encode(f)|, s.sh.writePos;
    var s0, wasEmpty := S.Step(g, s, S.BeginPush(f)), s.sh.readPos == pos;
    var s2 := s.(prod := S.PCopy(S.Push(f), pos, wasEmpty, 0));
    PushStarts(g, s, f);
    CopyAlone(g, s2, S.Push(f), pos, wasEmpty, n);
    assert S.JobBytes(S.Push(f))[..n] == Encode(f);
    ProducerTicksAdd(g, s0, 2, n);
    var s3 := ProducerTicks(g, s0, 2 + n);
    PushFinishes(g, s3, f, pos, wasEmpty);
    ProducerTicksAdd(g, s0, 2 + n, 2);
  }

  /** What an undisturbed push that does not go through reports. */
  function Refusal(g: Geometry, sh: Shared, f: Frame): S.Outcome
    requires ValidGeometry(g) && Shaped(g, sh)
  {
    if |f.payload| > MaxPayload(g) then S.Oversized
    else if SlotWindow(g, sh.seqs[SlotIndex(g, sh.writePos)], sh.writePos) == Occupied then S.Full
    else S.Outcome.Corrupt
  }

  /** An undisturbed push of a frame that is too large, or on a slot that is not free, ends after its
      first step; however many more steps the producer is given, all it leaves is its report. */
  lemma {:induction false} PushRefusedAlone(g: Geometry, s: S.State, f: Frame, n: nat)
    requires ValidGeometry(g) && S.Bounded(g, s) && s.prod.PIdle? && n >= 1
    requires |f.payload| > MaxPayload(g) || SlotWindow(g, s.sh.seqs[SlotIndex(g, s.sh.writePos)], s.sh.writePos) != Free
    ensures ProducerTicks(g, S.Step(g, s, S.BeginPush(f)), n) == s.(outcomes := s.outcomes + [Refusal(g, s.sh, f)])
  {
    hide SlotIndex, ProducerWindow, SlotWindow;
    WindowsExactly(g, s.sh.seqs[SlotIndex(g, s.sh.writePos)], s.sh.writePos);
    if n > 1 { PushRefusedAlone(g, s, f, n - 1); }
  }

  // ── Reserve, fill and commit ──

  predicate FillsWithin(ls: seq<S.Label>, n: nat) { forall i :: 0 <= i < |ls| ==> ls[i].Fill? && ls[i].j < n }

  /** Writes through a reservation change nothing but the payload bytes they name. */
  lemma {:induction false} FillsAlone(g: Geometry, s: S.State, ls: seq<S.Label>, n: nat)
    requires ValidGeometry(g) && S.Bounded(g, s) && s.prod.PHeld? && FillsWithin(ls, n) && n <= MaxPayload(g)
    ensures var s', i := S.Run(g, s, ls), SlotIndex(g, s.prod.pos);
      && s' == s.(sh := s.sh.(slots := s.sh.slots[i := s'.sh.slots[i]]))
      && forall k :: 0 <= k < g.segmentSize && !(FRAME_HEADER_LEN <= k < FRAME_HEADER_LEN + n) ==>
           s'.sh.slots[i][k] == s.sh.slots[i][k]
  {
    hide SlotIndex;
    if ls == [] {
      var i := SlotIndex(g, s.prod.pos);
      assert s.sh.slots[i := s.sh.slots[i]] == s.sh.slots;
    } else {
      FillsAlone(g, s, ls[..|ls| - 1], n);
    }
  }

  /** Together they are one copy behind the header. */
  lemma FilledSlot(g: Geometry, s: S.State, ls: seq<S.Label>, bytes: seq<byte>)
    requires ValidGeometry(g) && S.Bounded(g, s) && s.prod.PHeld? && |bytes| <= MaxPayload(g)
    requires FillsWithin(ls, |bytes|) && R.Spells(ls, bytes)
    ensures var i := SlotIndex(g, s.prod.pos);
      S.Run(g, s, ls) == s.(sh := s.sh.(slots := s.sh.slots[i := Splice(s.sh.slots[i], FRAME_HEADER_LEN, bytes)]))
  {
    FillsAlone(g, s, ls, |bytes|);
    R.SpelledPayload(g, s, ls, bytes);
    hide S.Run, SlotIndex, R.Spells;
    var s', i := S.Run(g, s, ls), SlotIndex(g, s.prod.pos);
    assert s'.sh.slots[i][FRAME_HEADER_LEN..FRAME_HEADER_LEN + |bytes|] == R.PayloadAt(g, s', s.prod.pos)[..|bytes|] == bytes;
    SplicedIs(s.sh.slots[i], s'.sh.slots[i], FRAME_HEADER_LEN, bytes);
  }

  lemma SplicedIs(s: seq<byte>, s': seq<byte>, off: nat, bytes: seq<byte>)
    requires |s'| == |s| && off + |bytes| <= |s| && s'[off..off + |bytes|] == bytes
    requires forall k :: 0 <= k < |s| && !(off <= k < off + |bytes|) ==> s'[k] == s[k]
    ensures s' == Splice(s, off, bytes)
  {
    forall k | 0 <= k < |s| ensures s'[k] == Splice(s, off, bytes)[k] {
      if off <= k < off + |bytes| { assert s'[off..off + |bytes|][k - off] == s'[k]; }
    }
  }

  lemma HeaderThenPayload(s: seq<byte>, f: Frame)
    requires |f.payload| < U32_SPAN && FRAME_HEADER_LEN + |f.payload| <= |s|
    ensures Splice(Splice(s, FRAME_HEADER_LEN, f.payload), 0, EncodeHeader(|f.payload|, f.id)) == Splice(s, 0, Encode(f))
  {
    hide EncodeHeader;
    assert |f.payload| % U32_SPAN == |f.payload|;
  }

  lemma CommitFinishes(g: Geometry, s: S.State, id: u32, len: nat, pos: u64, wasEmpty: bool)
    requires ValidGeometry(g) && S.Bounded(g, s) && len <= MaxPayload(g)
    requires s.prod == S.PCopy(S.Commit(id, len), pos, wasEmpty, FRAME_HEADER_LEN)
    ensures ProducerTicks(g, s, 2)
         == s.(sh := s.sh.(seqs := s.sh.seqs[SlotIndex(g, pos) := WrappingAdd(pos, 1)], writePos := WrappingAdd(pos, 1)),
               prod := S.PIdle,
               published := s.published + [O.InPlaceFrame(s.sh.slots[SlotIndex(g, pos)], id, len)],
               outcomes := s.outcomes + [S.Pushed(wasEmpty)])
  {
    hide EncodeHeader, SlotIndex, WrappingAdd;
    assert ProducerTicks(g, s, 1) == S.ProducerTickStep(g, s);
  }

  /** An undisturbed commit from its load of `read_pos` on has the effect of `Commit`. */
  lemma CommitAlone(g: Geometry, s: S.State, id: u32, len: nat)
    requires ValidGeometry(g) && S.Bounded(g, s) && len <= MaxPayload(g)
    requires s.prod == S.PLoadRead(S.Commit(id, len), s.sh.writePos)
    ensures ProducerTicks(g, s, R.HELD_TICKS)
         == s.(sh := O.AfterCommit(g, s.sh, O.ReservedSlot(s.sh.writePos, SlotIndex(g, s.sh.writePos)), id, len),
               prod := S.PIdle,
               published := s.published + [O.InPlaceFrame(s.sh.slots[SlotIndex(g, s.sh.writePos)], id, len)],
               outcomes := s.outcomes + [S.Pushed(s.sh.readPos == s.sh.writePos)])
  {
    hide EncodeHeader, SlotIndex, WrappingAdd, Splice, S.ProducerTickStep, ProducerTicks;
    var pos, n := s.sh.writePos, |S.JobBytes(S.Commit(id, len))|;
    CommitCopies(g, s, id, len, n);
    CommitFinishes(g, CopiedHeader(g, s, id, len), id, len, pos, s.sh.readPos == pos);
    ProducerTicksAdd(g, s, 1 + n, 2);
    HeaderBeforePayload(s.sh.slots[SlotIndex(g, pos)], id, len);
  }

  /** The state of a commit whose header is in place. */
  function CopiedHeader(g: Geometry, s: S.State, id: u32, len: nat): S.State
    requires ValidGeometry(g) && S.Bounded(g, s) && len <= MaxPayload(g)
  {
    var pos, i := s.sh.writePos, SlotIndex(g, s.sh.writePos);
    s.(prod := S.PCopy(S.Commit(id, len), pos, s.sh.readPos == pos, FRAME_HEADER_LEN),
       sh := s.sh.(slots := s.sh.slots[i := Splice(s.sh.slots[i], 0, EncodeHeader(len, id))]))
  }

  lemma CommitCopies(g: Geometry, s: S.State, id: u32, len: nat, n: nat)
    requires ValidGeometry(g) && S.Bounded(g, s) && len <= MaxPayload(g)
    requires s.prod == S.PLoadRead(S.Commit(id, len), s.sh.writePos) && n == |S.JobBytes(S.Commit(id, len))|
    ensures n == FRAME_HEADER_LEN && len < U32_SPAN
    ensures ProducerTicks(g, s, 1 + n) == CopiedHeader(g, s, id, len) && S.Bounded(g, CopiedHeader(g, s, id, len))
  {
    hide EncodeHeader, SlotIndex, Splice, S.ProducerTickStep, ProducerTicks;
    var pos, wasEmpty, job := s.sh.writePos, s.sh.readPos == s.sh.writePos, S.Commit(id, len);
    LoadReadAlone(g, s);
    CopyAlone(g, s.(prod := S.PCopy(job, pos, wasEmpty, 0)), job, pos, wasEmpty, n);
    assert S.JobBytes(job)[..n] == EncodeHeader(len, id);
    ProducerTicksAdd(g, s, 1, n);
  }

  lemma LoadReadAlone(g: Geometry, s: S.State)
    requires ValidGeometry(g) && S.Bounded(g, s) && s.prod.PLoadRead?
    ensures ProducerTicks(g, s, 1) == s.(prod := S.PCopy(s.prod.job, s.prod.pos, s.sh.readPos == s.prod.pos, 0))
  {
    assert ProducerTicks(g, s, 0) == s;
  }

  lemma HeaderBeforePayload(slot: seq<byte>, id: u32, len: nat)
    requires FRAME_HEADER_LEN + len <= |slot| && len < U32_SPAN
    ensures O.InPlaceFrame(Splice(slot, 0, EncodeHeader(len, id)), id, len) == O.InPlaceFrame(slot, id, len)
  {
    hide EncodeHeader;
  }

  lemma ReserveAlone(g: Geometry, s: S.State)
    requires ValidGeometry(g) && S.Bounded(g, s) && s.prod.PIdle?
    requires SlotWindow(g, s.sh.seqs[SlotIndex(g, s.sh.writePos)], s.sh.writePos) == Free
    ensures ProducerTicks(g, S.Step(g, s, S.BeginReserve), 1) == s.(prod := S.PHeld(s.sh.writePos))
  {
    hide SlotIndex, ProducerWindow, SlotWindow;
    WindowsExactly(g, s.sh.seqs[SlotIndex(g, s.sh.writePos)], s.sh.writePos);
    assert ProducerTicks(g, S.Step(g, s, S.BeginReserve), 0) == S.Step(g, s, S.BeginReserve);
  }

  /** Either way of committing a held slot, nobody interfering, starts the commit at that slot. */
  lemma CommitStartsAlone(g: Geometry, s: S.State, id: u32, len: nat)
    requires ValidGeometry(g) && S.Bounded(g, s) && s.prod == S.PHeld(s.sh.writePos) && len <= MaxPayload(g)
    requires SlotWindow(g, s.sh.seqs[SlotIndex(g, s.sh.writePos)], s.sh.writePos) == Free
    ensures S.Step(g, s, S.CommitHeld(id, len)) == s.(prod := S.PLoadRead(S.Commit(id, len), s.sh.writePos))
    ensures ProducerTicks(g, S.Step(g, s, S.BeginCommit(id, len)), 1) == s.(prod := S.PLoadRead(S.Commit(id, len), s.sh.writePos))
  {
    hide SlotIndex, ProducerWindow, SlotWindow;
    WindowsExactly(g, s.sh.seqs[SlotIndex(g, s.sh.writePos)], s.sh.writePos);
    assert ProducerTicks(g, S.Step(g, s, S.BeginCommit(id, len)), 0) == S.Step(g, s, S.BeginCommit(id, len));
  }

  /** The state after an undisturbed reserve and the fills. */
  function Filled(g: Geometry, s: S.State, bytes: seq<byte>): S.State
    requires ValidGeometry(g) && S.Bounded(g, s) && |bytes| <= MaxPayload(g)
  {
    var i := SlotIndex(g, s.sh.writePos);
    s.(prod := S.PHeld(s.sh.writePos),
       sh := s.sh.(slots := s.sh.slots[i := Splice(s.sh.slots[i], FRAME_HEADER_LEN, bytes)]))
  }

  /** Committing it pushes the frame of the bytes filled in. */
  lemma CommitFilled(g: Geometry, s: S.State, id: u32, bytes: seq<byte>)
    requires ValidGeometry(g) && S.Bounded(g, s) && s.prod.PIdle? && |bytes| <= MaxPayload(g)
    requires S.Bounded(g, Filled(g, s, bytes))
    ensures ProducerTicks(g, Filled(g, s, bytes).(prod := S.PLoadRead(S.Commit(id, |bytes|), s.sh.writePos)), R.HELD_TICKS)
         == s.(sh := O.AfterPush(g, s.sh, Frame(id, bytes)),
               published := s.published + [Frame(id, bytes)],
               outcomes := s.outcomes + [S.Pushed(s.sh.readPos == s.sh.writePos)])
  {
    var i, f := SlotIndex(g, s.sh.writePos), Frame(id, bytes);
    var slot := s.sh.slots[i];
    HeaderThenPayload(slot, f);
    assert O.InPlaceFrame(Splice(slot, FRAME_HEADER_LEN, bytes), id, |bytes|) == f;
    hide Encode, EncodeHeader, SlotIndex, WrappingAdd, Splice, ProducerTicks, S.ProducerTickStep;
    CommitAlone(g, Filled(g, s, bytes).(prod := S.PLoadRead(S.Commit(id, |bytes|), s.sh.writePos)), id, |bytes|);
  }

  /** Undisturbed in-place production, committed either way, has the effect of `TryPush` of the bytes
      filled in. */
  lemma ProducedAlone(g: Geometry, s: S.State, fills: seq<S.Label>, id: u32, bytes: seq<byte>)
    requires ValidGeometry(g) && S.Bounded(g, s) && s.prod.PIdle? && |bytes| <= MaxPayload(g)
    requires SlotWindow(g, s.sh.seqs[SlotIndex(g, s.sh.writePos)], s.sh.writePos) == Free
    requires FillsWithin(fills, |bytes|) && R.Spells(fills, bytes)
    ensures var held := S.Run(g, ProducerTicks(g, S.Step(g, s, S.BeginReserve), 1), fills);
      var pushed := s.(sh := O.AfterPush(g, s.sh, Frame(id, bytes)),
                       published := s.published + [Frame(id, bytes)],
                       outcomes := s.outcomes + [S.Pushed(s.sh.readPos == s.sh.writePos)]);
      && ProducerTicks(g, S.Step(g, held, S.CommitHeld(id, |bytes|)), R.HELD_TICKS) == pushed
      && ProducerTicks(g, S.Step(g, held, S.BeginCommit(id, |bytes|)), R.RAW_TICKS) == pushed
  {
    hide Encode, SlotIndex, SlotWindow, WrappingAdd, Splice, S.Step, S.Run, ProducerTicks, R.Spells, O.AfterPush;
    ReserveAlone(g, s);
    var s1 := s.(prod := S.PHeld(s.sh.writePos));
    FilledSlot(g, s1, fills, bytes);
    var held := Filled(g, s, bytes);
    CommitStartsAlone(g, held, id, |bytes|);
    CommitFilled(g, s, id, bytes);
    ProducerTicksAdd(g, S.Step(g, held, S.BeginCommit(id, |bytes|)), 1, R.HELD_TICKS);
  }

  // ── Pop ──

  /** An undisturbed read on a slot that is not ready changes nothing. */
  lemma {:induction false} PopNothingAlone(g: Geometry, s: S.State, read: S.Read, n: nat)
    requires ValidGeometry(g) && S.Bounded(g, s) && s.cons.CIdle? && n >= 1
    requires !MarksReady(s.sh.seqs[SlotIndex(g, s.sh.readPos)], s.sh.readPos)
    ensures ConsumerTicks(g, S.Step(g, s, S.BeginRead(read)), n) == s
  {
    hide SlotIndex, IsReady, MarksReady, DecodeHeader;
    WindowsExactly(g, s.sh.seqs[SlotIndex(g, s.sh.readPos)], s.sh.readPos);
    if n > 1 { PopNothingAlone(g, s, read, n - 1); }
  }

  lemma {:induction false} HeaderAlone(g: Geometry, s: S.State, k: nat)
    requires ValidGeometry(g) && S.Bounded(g, s) && s.cons.CHeader? && s.cons.hdr == [] && k < FRAME_HEADER_LEN
    ensures ConsumerTicks(g, s, k) == s.(cons := s.cons.(hdr := s.sh.slots[SlotIndex(g, s.cons.pos)][..k]))
  {
    hide SlotIndex, DecodeHeader;
    var slot := s.sh.slots[SlotIndex(g, s.cons.pos)];
    if k > 0 {
      HeaderAlone(g, s, k - 1);
      assert slot[..k - 1] + [slot[k - 1]] == slot[..k];
    }
  }

  lemma SliceOneMore(s: seq<byte>, a: nat, n: nat)
    requires a + n < |s|
    ensures s[a..a + n] + [s[a + n]] == s[a..a + n + 1]
  {
  }

  lemma {:induction false} BodyAlone(g: Geometry, s: S.State, k: nat)
    requires ValidGeometry(g) && S.Bounded(g, s) && s.cons.CBody? && s.cons.got == []
    requires k <= S.BodyLen(s.cons.read, s.cons.len)
    ensures var slot, b := s.sh.slots[SlotIndex(g, s.cons.pos)], S.BodyStart(s.cons.read);
            ConsumerTicks(g, s, k) == s.(cons := s.cons.(got := slot[b..b + k]))
  {
    hide SlotIndex, DecodeHeader, S.ConsumerTickStep;
    var slot, b := s.sh.slots[SlotIndex(g, s.cons.pos)], S.BodyStart(s.cons.read);
    if k == 0 {
      assert slot[b..b] == [];
    } else {
      BodyAlone(g, s, k - 1);
      BodyTick(g, s.(cons := s.cons.(got := slot[b..b + (k - 1)])));
      SliceOneMore(slot, b, k - 1);
    }
  }

  lemma BodyTick(g: Geometry, s: S.State)
    requires ValidGeometry(g) && S.Bounded(g, s) && s.cons.CBody? && |s.cons.got| < S.BodyLen(s.cons.read, s.cons.len)
    ensures var slot, b := s.sh.slots[SlotIndex(g, s.cons.pos)], S.BodyStart(s.cons.read) + |s.cons.got|;
      b < |slot| && S.ConsumerTickStep(g, s) == s.(cons := s.cons.(got := s.cons.got + [slot[b]]))
  {
    hide SlotIndex, DecodeHeader;
  }

  lemma PopStarts(g: Geometry, s: S.State, read: S.Read)
    requires ValidGeometry(g) && S.Bounded(g, s) && s.cons.CIdle? && O.FrontFrame(g, s.sh).Some?
    ensures var f := O.FrontFrame(g, s.sh).value;
            ConsumerTicks(g, S.Step(g, s, S.BeginRead(read)), 1 + 8) == Reading(s, read, f, [])
  {
    hide SlotIndex, MarksReady, DecodeHeader, S.Step, S.ConsumerTickStep;
    var s0, s1 := S.Step(g, s, S.BeginRead(read)), s.(cons := S.CHeader(read, s.sh.readPos, []));
    LookAlone(g, s, read);
    HeaderAlone(g, s1, 7);
    assert ConsumerTicks(g, s1, 8) == S.ConsumerTickStep(g, ConsumerTicks(g, s1, 7));
    HeaderEnds(g, ConsumerTicks(g, s1, 7));
    ConsumerTicksAdd(g, s0, 1, 8);
  }

  lemma LookAlone(g: Geometry, s: S.State, read: S.Read)
    requires ValidGeometry(g) && S.Bounded(g, s) && s.cons.CIdle? && MarksReady(s.sh.seqs[SlotIndex(g, s.sh.readPos)], s.sh.readPos)
    ensures ConsumerTicks(g, S.Step(g, s, S.BeginRead(read)), 1) == s.(cons := S.CHeader(read, s.sh.readPos, []))
  {
    hide SlotIndex, IsReady, MarksReady, DecodeHeader;
    WindowsExactly(g, s.sh.seqs[SlotIndex(g, s.sh.readPos)], s.sh.readPos);
    assert ConsumerTicks(g, S.Step(g, s, S.BeginRead(read)), 0) == S.Step(g, s, S.BeginRead(read));
  }

  lemma HeaderEnds(g: Geometry, s: S.State)
    requires ValidGeometry(g) && S.Bounded(g, s) && s.cons.CHeader?
    requires s.cons.hdr == s.sh.slots[SlotIndex(g, s.cons.pos)][..FRAME_HEADER_LEN - 1]
    ensures var (len, id) := DecodeHeader(s.sh.slots[SlotIndex(g, s.cons.pos)][..FRAME_HEADER_LEN]);
      S.ConsumerTickStep(g, s) == s.(cons := S.CBody(s.cons.read, s.cons.pos, id, Min(len, MaxPayload(g)), []))
  {
    hide SlotIndex, DecodeHeader;
    var slot := s.sh.slots[SlotIndex(g, s.cons.pos)];
    assert slot[..7] + [slot[7]] == slot[..8];
  }

  function Reading(s: S.State, read: S.Read, f: Frame, got: seq<byte>): S.State {
    s.(cons := S.CBody(read, s.sh.readPos, f.id, |f.payload|, got))
  }

  /** What a read of the front frame is given: the payload, as much of it as there is room for, or for a
      peek the bytes as they stand in the slot. */
  function Given(g: Geometry, sh: Shared, read: S.Read, f: Frame): seq<byte>
    requires ValidGeometry(g) && Shaped(g, sh) && |f.payload| <= MaxPayload(g)
  {
    match read
    case PopInto => f.payload
    case PopIntoSlice(room) => if |f.payload| <= room then f.payload else f.payload[..room]
    case Peek => sh.slots[SlotIndex(g, sh.readPos)][..FRAME_HEADER_LEN + |f.payload|]
  }

  lemma BodyReads(g: Geometry, s: S.State, read: S.Read, f: Frame)
    requires ValidGeometry(g) && S.Bounded(g, s) && O.FrontFrame(g, s.sh) == Some(f)
    ensures |f.payload| <= MaxPayload(g) && S.Bounded(g, Reading(s, read, f, []))
    ensures |Given(g, s.sh, read, f)| == S.BodyLen(read, |f.payload|)
    ensures ConsumerTicks(g, Reading(s, read, f, []), S.BodyLen(read, |f.payload|)) == Reading(s, read, f, Given(g, s.sh, read, f))
  {
    hide ConsumerTicks, S.ConsumerTickStep, O.FrontFrame, SlotIndex;
    PopFrontBytes(g, s);
    var slot, n := s.sh.slots[SlotIndex(g, s.sh.readPos)], S.BodyLen(read, |f.payload|);
    BodyAlone(g, Reading(s, read, f, []), n);
    assert slot[FRAME_HEADER_LEN..FRAME_HEADER_LEN + |f.payload|] == f.payload;
    assert read.PopIntoSlice? ==> slot[FRAME_HEADER_LEN..FRAME_HEADER_LEN + n] == f.payload[..n];
    assert read.Peek? ==> slot[0..0 + n] == slot[..n];
  }

  lemma ReadAlone(g: Geometry, s: S.State, read: S.Read, f: Frame)
    requires ValidGeometry(g) && S.Bounded(g, s) && s.cons.CIdle? && O.FrontFrame(g, s.sh) == Some(f)
    ensures |f.payload| <= MaxPayload(g)
    ensures ConsumerTicks(g, S.Step(g, s, S.BeginRead(read)), 9 + S.BodyLen(read, |f.payload|))
         == Reading(s, read, f, Given(g, s.sh, read, f))
  {
    hide ConsumerTicks, S.ConsumerTickStep, S.Step, S.Bounded, O.FrontFrame, ValidGeometry, SlotIndex;
    PopStarts(g, s, read);
    BodyReads(g, s, read, f);
    ConsumerTicksAdd(g, S.Step(g, s, S.BeginRead(read)), 9, S.BodyLen(read, |f.payload|));
  }

  lemma PopFinishes(g: Geometry, s: S.State, d: S.Delivery, len: nat)
    requires ValidGeometry(g) && S.Bounded(g, s) && !d.read.Peek? && |d.bytes| == S.BodyLen(d.read, len)
    requires s.cons == S.CBody(d.read, s.sh.readPos, d.id, len, d.bytes)
    ensures ConsumerTicks(g, s, 3) == s.(sh := O.AfterRelease(g, s.sh), cons := S.CIdle, popped := s.popped + [d])
  {
    hide SlotIndex, WrappingAdd;
    assert ConsumerTicks(g, s, 1) == s.(cons := S.CRelease(d, s.sh.readPos));
    assert ConsumerTicks(g, s, 2) == S.ConsumerTickStep(g, ConsumerTicks(g, s, 1));
  }

  /** An undisturbed pop on a ready slot delivers the front frame, cut to the room there is, and has the
      effect of `TryPopInto` and `TryPopIntoSlice`. */
  lemma PopAlone(g: Geometry, s: S.State, read: S.Read, f: Frame)
    requires ValidGeometry(g) && S.Bounded(g, s) && s.cons.CIdle? && O.FrontFrame(g, s.sh) == Some(f) && !read.Peek?
    ensures |f.payload| <= MaxPayload(g)
    ensures ConsumerTicks(g, S.Step(g, s, S.BeginRead(read)), 9 + S.BodyLen(read, |f.payload|) + 3)
         == s.(sh := O.AfterRelease(g, s.sh), popped := s.popped + [S.Delivery(read, f.id, Given(g, s.sh, read, f))])
  {
    hide O.FrontFrame, O.AfterRelease, S.Step, S.ConsumerTickStep, ConsumerTicks, ValidGeometry, Given;
    ReadAlone(g, s, read, f);
    BodyReads(g, s, read, f);
    var n := S.BodyLen(read, |f.payload|);
    PopFinishes(g, Reading(s, read, f, Given(g, s.sh, read, f)), S.Delivery(read, f.id, Given(g, s.sh, read, f)), |f.payload|);
    ConsumerTicksAdd(g, S.Step(g, s, S.BeginRead(read)), 9 + n, 3);
  }

  lemma PeekFinishes(g: Geometry, s: S.State, d: S.Delivery, len: nat)
    requires ValidGeometry(g) && S.Bounded(g, s) && d.read.Peek? && |d.bytes| == S.BodyLen(d.read, len)
    requires s.cons == S.CBody(d.read, s.sh.readPos, d.id, len, d.bytes)
    ensures ConsumerTicks(g, s, 1) == s.(cons := S.CPeeked(d))
    ensures S.Bounded(g, s.(cons := S.CPeeked(d)))
  {
    hide SlotIndex;
    assert ConsumerTicks(g, s, 0) == s;
  }

  /** An advance after a peek releases the slot. */
  lemma AdvanceAlone(g: Geometry, s: S.State, d: S.Delivery)
    requires ValidGeometry(g) && S.Bounded(g, s) && s.cons == S.CPeeked(d) && O.FrontFrame(g, s.sh).Some?
    ensures ConsumerTicks(g, S.Step(g, s, S.BeginAdvance), 3)
         == s.(sh := O.AfterRelease(g, s.sh), cons := S.CIdle, popped := s.popped + [d])
  {
    hide SlotIndex, WrappingAdd, IsReady, MarksReady, DecodeHeader;
    WindowsExactly(g, s.sh.seqs[SlotIndex(g, s.sh.readPos)], s.sh.readPos);
    var s0 := S.Step(g, s, S.BeginAdvance);
    assert ConsumerTicks(g, s0, 1) == s.(cons := S.CRelease(d, s.sh.readPos));
    assert ConsumerTicks(g, s0, 2) == S.ConsumerTickStep(g, ConsumerTicks(g, s0, 1));
  }

  /** An undisturbed peek lends out the bytes of the front slot and changes nothing else; given up, it
      leaves no trace, and advanced, it has the effect of a pop. */
  lemma PeekAlone(g: Geometry, s: S.State, f: Frame)
    requires ValidGeometry(g) && S.Bounded(g, s) && s.cons.CIdle? && O.FrontFrame(g, s.sh) == Some(f)
    ensures |f.payload| <= MaxPayload(g)
    ensures var d := S.Delivery(S.Peek, f.id, s.sh.slots[SlotIndex(g, s.sh.readPos)][..FRAME_HEADER_LEN + |f.payload|]);
      var peeked := ConsumerTicks(g, S.Step(g, s, S.BeginRead(S.Peek)), 9 + (FRAME_HEADER_LEN + |f.payload|) + 1);
      && peeked == s.(cons := S.CPeeked(d))
      && S.Step(g, peeked, S.DropPeek) == s
      && ConsumerTicks(g, S.Step(g, peeked, S.BeginAdvance), 3) == s.(sh := O.AfterRelease(g, s.sh), popped := s.popped + [d])
  {
    hide O.FrontFrame, O.AfterRelease, S.Step, S.ConsumerTickStep, ConsumerTicks, ValidGeometry, S.Bounded, Given, SlotIndex;
    BoundedShape(g, s);
    ReadAlone(g, s, S.Peek, f);
    BodyReads(g, s, S.Peek, f);
    GivenByPeek(g, s, f);
    var d := S.Delivery(S.Peek, f.id, Given(g, s.sh, S.Peek, f));
    PeekFinishes(g, Reading(s, S.Peek, f, d.bytes), d, |f.payload|);
    ConsumerTicksAdd(g, S.Step(g, s, S.BeginRead(S.Peek)), 9 + (FRAME_HEADER_LEN + |f.payload|), 1);
    DropAlone(g, s.(cons := S.CPeeked(d)));
    AdvanceAlone(g, s.(cons := S.CPeeked(d)), d);
  }

  lemma BoundedShape(g: Geometry, s: S.State)
    requires ValidGeometry(g) && S.Bounded(g, s)
    ensures Shaped(g, s.sh)
  {
  }

  lemma GivenByPeek(g: Geometry, s: S.State, f: Frame)
    requires ValidGeometry(g) && S.Bounded(g, s) && |f.payload| <= MaxPayload(g)
    ensures Given(g, s.sh, S.Peek, f) == s.sh.slots[SlotIndex(g, s.sh.readPos)][..FRAME_HEADER_LEN + |f.payload|]
  {
  }

  lemma DropAlone(g: Geometry, s: S.State)
    requires ValidGeometry(g) && S.Bounded(g, s) && s.cons.CPeeked?
    ensures S.Step(g, s, S.DropPeek) == s.(cons := S.CIdle)
  {
  }

  lemma PopFrontBytes(g: Geometry, s: S.State)
    requires ValidGeometry(g) && S.Bounded(g, s) && O.FrontFrame(g, s.sh).Some?
    ensures var f := O.FrontFrame(g, s.sh).value;
            && |f.payload| <= MaxPayload(g)
            && s.sh.slots[SlotIndex(g, s.sh.readPos)][FRAME_HEADER_LEN..FRAME_HEADER_LEN + |f.payload|] == f.payload
  {
    hide SlotIndex, IsReady, MarksReady, DecodeHeader;
    var slot := s.sh.slots[SlotIndex(g, s.sh.readPos)];
    var n := Min(DecodeHeader(slot[..FRAME_HEADER_LEN]).0, MaxPayload(g));
    assert O.FrontFrame(g, s.sh).value.payload == slot[FRAME_HEADER_LEN..FRAME_HEADER_LEN + n];
  }
}
