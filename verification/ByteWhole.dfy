/** A push or a pop of the byte-stream ring that no one interrupts has exactly the effect the
    whole operation states, for any contents of the counters and of the data. */
module ByteWhole {
  import opened Words
  import opened Options
  import opened Frames
  import opened Copies
  import opened ByteRing
  import opened ByteTheorems
  import opened ByteObject

  function Repeat(l: Label, n: nat): (ls: seq<Label>)
    ensures l.Hostile? || Honest(ls)
  {
    if n == 0 then [] else Repeat(l, n - 1) + [l]
  }

  lemma RunSnoc(cap: nat, s: State, ls: seq<Label>, l: Label)
    requires Bounded(cap, s)
    ensures Run(cap, s, ls + [l]) == Step(cap, Run(cap, s, ls), l)
  {
    hide Step;
    assert (ls + [l])[..|ls|] == ls;
  }

  lemma {:induction false} RunConcat(cap: nat, s: State, a: seq<Label>, b: seq<Label>)
    requires Bounded(cap, s)
    ensures Run(cap, s, a + b) == Run(cap, Run(cap, s, a), b)
  {
    hide Step, Bounded, Run;
    if b == [] {
      assert a + b == a;
      RunNothing(cap, Run(cap, s, a));
    } else {
      var b', l := b[..|b| - 1], b[|b| - 1];
      assert b == b' + [l] && a + b == (a + b') + [l];
      RunConcat(cap, s, a, b');
      RunSnoc(cap, s, a + b', l);
      RunSnoc(cap, Run(cap, s, a), b', l);
    }
  }

  lemma RunNothing(cap: nat, s: State)
    requires Bounded(cap, s)
    ensures Run(cap, s, []) == s
  {
  }

  lemma RunOne(cap: nat, s: State, l: Label)
    requires Bounded(cap, s)
    ensures Run(cap, s, [l]) == Step(cap, s, l)
  {
    hide Step;
    RunNothing(cap, s);
    assert [l][..0] == [];
  }

  /** `n` further steps of one side, after the first `m`. */
  lemma RepeatOnce(cap: nat, s: State, l: Label, n: nat)
    requires Bounded(cap, s) && n > 0
    ensures Run(cap, s, Repeat(l, n)) == Step(cap, Run(cap, s, Repeat(l, n - 1)), l)
  {
    hide Step, Run;
    RunSnoc(cap, s, Repeat(l, n - 1), l);
  }

  // ── Pushes ──

  /** Two arrays that agree on every cell counted from `off` are equal. */
  lemma SameCells(x: seq<byte>, y: seq<byte>, off: nat)
    requires |x| == |y| && off < |x|
    requires forall q :: off <= q < off + |x| ==> x[Cell(|x|, q)] == y[Cell(|x|, q)]
    ensures x == y
  {
    hide Cell;
    forall a | 0 <= a < |x| ensures x[a] == y[a] {
      CellIs(|x|, a);
      if a < off {
        CellPeriod(|x|, a);
        assert x[Cell(|x|, a + |x|)] == y[Cell(|x|, a + |x|)];
      } else {
        assert x[Cell(|x|, a)] == y[Cell(|x|, a)];
      }
    }
  }

  /** What the data holds after the first `n` bytes of a frame have been copied. */
  ghost predicate Copied(data: seq<byte>, was: seq<byte>, off: nat, f: Frame, n: nat)
    requires 0 < |was| && n <= Total(f)
  {
    && |data| == |was|
    && forall q :: off <= q < off + |was| ==>
         data[Cell(|was|, q)] == if q < off + n then Encode(f)[q - off] else was[Cell(|was|, q)]
  }

  lemma CopiedOneMore(data: seq<byte>, was: seq<byte>, off: nat, f: Frame, n: nat)
    requires Total(f) <= |was| && n < Total(f) && Copied(data, was, off, f, n)
    ensures Copied(WithByte(data, Cell(|was|, off + n), Encode(f)[n]), was, off, f, n + 1)
  {
    hide Cell, Encode;
    var cap, data' := |was|, WithByte(data, Cell(|was|, off + n), Encode(f)[n]);
    forall q | off <= q < off + cap
      ensures data'[Cell(cap, q)] == if q < off + n + 1 then Encode(f)[q - off] else was[Cell(cap, q)]
    {
      if q < off + n { CellsDistinct(cap, q, off + n); }
      if q > off + n { CellsDistinct(cap, off + n, q); }
    }
  }

  lemma {:induction false} CopyAlone(cap: nat, s: State, n: nat)
    requires cap > 0 && Bounded(cap, s) && s.prod.PCopy? && s.prod.k == 0 && n <= Total(s.prod.f)
    ensures var s' := Run(cap, s, Repeat(ProducerTick, n));
            && s' == s.(sh := s.sh.(data := s'.sh.data), prod := s.prod.(k := n))
            && Copied(s'.sh.data, s.sh.data, Cell(cap, s.prod.write), s.prod.f, n)
  {
    hide Run, Encode, FrameAt, Copied, Cell;
    if n == 0 {
      RunNothing(cap, s);
      assert Copied(s.sh.data, s.sh.data, Cell(cap, s.prod.write), s.prod.f, 0) by {
        NothingCopied(s.sh.data, Cell(cap, s.prod.write), s.prod.f);
      }
    } else {
      CopyAlone(cap, s, n - 1);
      RepeatOnce(cap, s, ProducerTick, n);
      var s', f := Run(cap, s, Repeat(ProducerTick, n - 1)), s.prod.f;
      CellIs(cap, s.prod.write);
      CellIs(cap, Cell(cap, s.prod.write) + (n - 1));
      CopiedOneMore(s'.sh.data, s.sh.data, Cell(cap, s.prod.write), f, n - 1);
    }
  }

  lemma NothingCopied(was: seq<byte>, off: nat, f: Frame)
    requires 0 < |was|
    ensures Copied(was, was, off, f, 0)
  {
  }

  function PushLabels(f: Frame): (ls: seq<Label>)
    ensures Honest(ls)
  {
    [BeginPush(f), ProducerTick] + Repeat(ProducerTick, Total(f)) + [ProducerTick]
  }

  lemma CopiedIsPushed(sh: Shared, data: seq<byte>, f: Frame)
    requires Total(f) <= |sh.data| && Copied(data, sh.data, Cell(|sh.data|, sh.writeIdx), f, Total(f))
    ensures data == AfterPush(sh, f).data
  {
    hide Cell, Encode, AfterPush;
    var off := Cell(|sh.data|, sh.writeIdx);
    forall q | off <= q < off + |sh.data| ensures data[Cell(|sh.data|, q)] == AfterPush(sh, f).data[Cell(|sh.data|, q)] {
      PushedCells(sh, f, q - off);
    }
    SameCells(data, AfterPush(sh, f).data, off);
  }

  /** An uninterrupted push that finds room is `AfterPush`. */
  lemma PushAlone(cap: nat, s: State, f: Frame)
    requires Bounded(cap, s) && s.prod.PIdle? && WrappingSub(s.sh.writeIdx, s.sh.readIdx) + Total(f) <= cap
    ensures Run(cap, s, PushLabels(f))
         == s.(sh := AfterPush(s.sh, f), published := s.published + [f], outcomes := s.outcomes + [Pushed])
  {
    hide Run, Encode, AfterPush, Copied, Repeat, Cell, WrappingSub;
    var s1 := Step(cap, s, BeginPush(f));
    RunOne(cap, s, BeginPush(f));
    RunSnoc(cap, s, [BeginPush(f)], ProducerTick);
    var s2 := Step(cap, s1, ProducerTick);
    var ls := [BeginPush(f)] + [ProducerTick];
    assert [BeginPush(f), ProducerTick] == ls;
    RunConcat(cap, s, ls, Repeat(ProducerTick, Total(f)));
    CopyAlone(cap, s2, Total(f));
    RunSnoc(cap, s, ls + Repeat(ProducerTick, Total(f)), ProducerTick);
    var s3 := Run(cap, s2, Repeat(ProducerTick, Total(f)));
    CopiedIsPushed(s.sh, s3.sh.data, f);
    AfterPushCounters(s.sh, f);
  }

  /** What an uninterrupted push that does not go through reports. */
  function Refusal(cap: nat, sh: Shared, f: Frame): Outcome {
    if Total(f) > cap then Oversized
    else if WrappingSub(sh.writeIdx, sh.readIdx) > cap then RingCorrupt
    else RingFull
  }

  /** An uninterrupted push of a frame larger than the ring, or one that finds no room, ends at its
      space check; however many more steps the producer is given, all it leaves is its report. */
  lemma {:induction false} PushRefusedAlone(cap: nat, s: State, f: Frame, n: nat)
    requires Bounded(cap, s) && s.prod.PIdle? && n >= 1
    requires WrappingSub(s.sh.writeIdx, s.sh.readIdx) + Total(f) > cap
    ensures Run(cap, s, [BeginPush(f)] + Repeat(ProducerTick, n)) == s.(outcomes := s.outcomes + [Refusal(cap, s.sh, f)])
  {
    hide Run, Repeat, WrappingSub;
    RunConcat(cap, s, [BeginPush(f)], Repeat(ProducerTick, n));
    RunOne(cap, s, BeginPush(f));
    var s1 := Step(cap, s, BeginPush(f));
    RepeatOnce(cap, s1, ProducerTick, n);
    if n == 1 {
      RepeatNone(cap, s1, ProducerTick);
    } else {
      RunConcat(cap, s, [BeginPush(f)], Repeat(ProducerTick, n - 1));
      PushRefusedAlone(cap, s, f, n - 1);
    }
  }

  lemma RepeatNone(cap: nat, s: State, l: Label)
    requires Bounded(cap, s)
    ensures Run(cap, s, Repeat(l, 0)) == s
  {
    hide Step;
    RunNothing(cap, s);
  }

  // ── Pops ──

  /** A read that has copied `n` header bytes of an undisturbed ring. */
  lemma {:induction false} HeaderAlone(cap: nat, s: State, n: nat)
    requires Bounded(cap, s) && s.cons.CHeader? && s.cons.hdr == [] && n < FRAME_HEADER_LEN
    ensures Run(cap, s, Repeat(ConsumerTick, n))
         == s.(cons := s.cons.(hdr := ReadWrapped(s.sh.data, Cell(cap, s.cons.at), FRAME_HEADER_LEN)[..n]))
  {
    hide Run, WrapAt, ReadWrapped, DecodeHeader, Cell;
    var off := Cell(cap, s.cons.at);
    var all := ReadWrapped(s.sh.data, off, FRAME_HEADER_LEN);
    if n == 0 {
      RunNothing(cap, s);
      assert all[..0] == [];
    } else {
      HeaderAlone(cap, s, n - 1);
      RepeatOnce(cap, s, ConsumerTick, n);
      ReadWrappedAt(s.sh.data, off, FRAME_HEADER_LEN, n - 1);
      CellIs(cap, s.cons.at);
      CellIs(cap, off + (n - 1));
      assert all[..n] == all[..n - 1] + [all[n - 1]];
    }
  }

  lemma {:induction false} BodyAlone(cap: nat, s: State, n: nat)
    requires Bounded(cap, s) && cap > 0 && s.cons.CBody? && s.cons.got == [] && n <= CopyLen(s.cons.read, s.cons.len)
    ensures var off := Cell(cap, Cell(cap, s.cons.at) + FRAME_HEADER_LEN);
            Run(cap, s, Repeat(ConsumerTick, n)) == s.(cons := s.cons.(got := ReadWrapped(s.sh.data, off, s.cons.len)[..n]))
  {
    hide Run, WrapAt, ReadWrapped, Cell;
    var off := Cell(cap, Cell(cap, s.cons.at) + FRAME_HEADER_LEN);
    var all := ReadWrapped(s.sh.data, off, s.cons.len);
    if n == 0 {
      RunNothing(cap, s);
      assert all[..0] == [];
    } else {
      BodyAlone(cap, s, n - 1);
      RepeatOnce(cap, s, ConsumerTick, n);
      ReadWrappedAt(s.sh.data, off, s.cons.len, n - 1);
      CellIs(cap, s.cons.at);
      CellIs(cap, Cell(cap, s.cons.at) + FRAME_HEADER_LEN);
      CellIs(cap, off + (n - 1));
      assert all[..n] == all[..n - 1] + [all[n - 1]];
    }
  }

  function HeaderLabels(read: Read): (ls: seq<Label>)
    ensures Honest(ls)
  {
    [BeginRead(read), ConsumerTick] + Repeat(ConsumerTick, FRAME_HEADER_LEN - 1) + [ConsumerTick]
  }

  function PopLabels(read: Read, len: nat): (ls: seq<Label>)
    ensures Honest(ls)
  {
    HeaderLabels(read) + Repeat(ConsumerTick, CopyLen(read, len)) + [ConsumerTick] + [ConsumerTick]
  }

  lemma HeaderPhase(cap: nat, s: State, read: Read)
    requires Bounded(cap, s) && cap > 0 && s.cons.CIdle? && FrontFrame(s.sh).Some?
    ensures var f := FrontFrame(s.sh).value;
            && Total(f) <= cap
            && Run(cap, s, HeaderLabels(read)) == s.(cons := CBody(read, s.sh.readIdx, f.id, |f.payload|, []))
  {
    hide Run, ReadWrapped, DecodeHeader, Cell, Repeat, WrapAt, WrappingSub;
    var m := FRAME_HEADER_LEN - 1;
    var ls := [BeginRead(read)] + [ConsumerTick];
    assert [BeginRead(read), ConsumerTick] == ls;
    RunOne(cap, s, BeginRead(read));
    RunSnoc(cap, s, [BeginRead(read)], ConsumerTick);
    var s2 := Run(cap, s, ls);
    RunConcat(cap, s, ls, Repeat(ConsumerTick, m));
    HeaderAlone(cap, s2, m);
    RunSnoc(cap, s, ls + Repeat(ConsumerTick, m), ConsumerTick);
    var off := Cell(cap, s.sh.readIdx);
    var all := ReadWrapped(s.sh.data, off, FRAME_HEADER_LEN);
    ReadWrappedAt(s.sh.data, off, FRAME_HEADER_LEN, m);
    CellIs(cap, s.sh.readIdx);
    CellIs(cap, off + m);
    assert all[..m] + [all[m]] == all;
  }

  /** An uninterrupted read that finds a frame is `AfterPop`, and delivers that frame. */
  lemma PopAlone(cap: nat, s: State, read: Read)
    requires Bounded(cap, s) && cap > 0 && s.cons.CIdle? && FrontFrame(s.sh).Some?
    ensures var f := FrontFrame(s.sh).value;
            Run(cap, s, PopLabels(read, |f.payload|)) ==
              s.(sh := AfterPop(s.sh, f), popped := s.popped + [Delivery(read, f.id, Expected(read, f))])
  {
    hide Run, FrontFrame, ReadWrapped, Cell, Repeat, WrapAt, HeaderLabels;
    var f := FrontFrame(s.sh).value;
    var n := CopyLen(read, |f.payload|);
    HeaderPhase(cap, s, read);
    var s3 := Run(cap, s, HeaderLabels(read));
    RunConcat(cap, s, HeaderLabels(read), Repeat(ConsumerTick, n));
    BodyAlone(cap, s3, n);
    var ls := HeaderLabels(read) + Repeat(ConsumerTick, n);
    RunSnoc(cap, s, ls, ConsumerTick);
    RunSnoc(cap, s, ls + [ConsumerTick], ConsumerTick);
    FrontPayload(s.sh);
  }

  lemma FrontPayload(sh: Shared)
    requires FrontFrame(sh).Some?
    ensures var f, cap := FrontFrame(sh).value, |sh.data|;
            && Total(f) <= cap
            && f.payload == ReadWrapped(sh.data, Cell(cap, Cell(cap, sh.readIdx) + FRAME_HEADER_LEN), |f.payload|)
  {
    hide ReadWrapped, DecodeHeader, Cell;
  }

  /** An uninterrupted read that finds no complete frame, or one its length field makes impossible, gives
      up within its header steps and changes nothing. */
  lemma PopNothingAlone(cap: nat, s: State, read: Read)
    requires Bounded(cap, s) && cap > 0 && s.cons.CIdle? && FrontFrame(s.sh).None?
    ensures Run(cap, s, HeaderLabels(read)) == s
  {
    hide Run, ReadWrapped, DecodeHeader, Cell, Repeat, WrapAt, WrappingSub;
    var m := FRAME_HEADER_LEN - 1;
    var ls := [BeginRead(read)] + [ConsumerTick];
    assert [BeginRead(read), ConsumerTick] == ls;
    RunOne(cap, s, BeginRead(read));
    RunSnoc(cap, s, [BeginRead(read)], ConsumerTick);
    var s2 := Run(cap, s, ls);
    RunConcat(cap, s, ls, Repeat(ConsumerTick, m));
    RunSnoc(cap, s, ls + Repeat(ConsumerTick, m), ConsumerTick);
    if s2.cons.CIdle? {
      IdleStays(cap, s2, m);
    } else {
      HeaderAlone(cap, s2, m);
      var off := Cell(cap, s.sh.readIdx);
      var all := ReadWrapped(s.sh.data, off, FRAME_HEADER_LEN);
      ReadWrappedAt(s.sh.data, off, FRAME_HEADER_LEN, m);
      CellIs(cap, s.sh.readIdx);
      CellIs(cap, off + m);
      assert all[..m] + [all[m]] == all;
    }
  }

  lemma {:induction false} IdleStays(cap: nat, s: State, n: nat)
    requires Bounded(cap, s) && s.cons.CIdle?
    ensures Run(cap, s, Repeat(ConsumerTick, n)) == s
  {
    hide Run, Repeat;
    if n == 0 {
      RepeatNone(cap, s, ConsumerTick);
    } else {
      RepeatOnce(cap, s, ConsumerTick, n);
      IdleStays(cap, s, n - 1);
    }
  }
}
