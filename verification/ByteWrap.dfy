/** Delivery in order, without end: the byte-stream ring delivers every run's frames faithfully
    exactly when its capacity divides 2^64. For any other capacity the address `idx % cap` jumps
    when the counters wrap, and a run of pushes and pops reaches a delivery that is wrong. */
module ByteWrap {
  import opened Words
  import opened Options
  import opened Frames
  import opened Copies
  import opened ByteRing
  import opened ByteTheorems
  import opened ByteObject
  import opened ByteWhole

  /** What was popped is what was pushed first, frame by frame. */
  ghost predicate InOrder(s: State) {
    |s.popped| <= |s.published| && forall i :: 0 <= i < |s.popped| ==> Faithful(s.popped[i], s.published[i])
  }

  ghost predicate AlwaysInOrder(cap: nat) {
    forall data: seq<byte>, ls: seq<Label> :: |data| == cap && Honest(ls) ==> InOrder(Run(cap, Init(data), ls))
  }

  // ── Reaching the wrap ──

  /** A reachable state between operations whose queue is empty after `w` bytes. */
  ghost predicate Quiet(s: State, w: nat) {
    && s.prod.PIdle? && s.cons.CIdle?
    && |s.popped| == |s.published|
    && |EncodeAll(s.published)| == w
    && Queued(s.sh, s.published, |s.popped|)
  }

  /** Push and pop one frame of an empty ring before the counters wrap. */
  lemma Cycle(cap: nat, s: State, w: nat, f: Frame) returns (ls: seq<Label>)
    requires Bounded(cap, s) && cap > 0 && Quiet(s, w) && Total(f) <= cap && w + Total(f) < U64_SPAN
    ensures Honest(ls) && Quiet(Run(cap, s, ls), w + Total(f))
  {
    hide Run, Bounded, EncodeAll, Queued, FrontFrame, AfterPop, AfterPush, PushLabels, PopLabels, Expected, WrapSafe, WrappingSub, Unread;
    var fs, n := s.published, |s.popped|;
    EmptyRoom(cap, s, w, f);
    PushAlone(cap, s, f);
    PushEnqueues(s.sh, fs, n, f);
    EncodeAllSnoc(fs, f);
    assert |EncodeAll(fs + [f])| == w + Total(f);
    var s1 := Run(cap, s, PushLabels(f));
    BelowWrap(cap, w + Total(f));
    FrontIsOldest(s1.sh, fs + [f], n);
    PopAlone(cap, s1, PopInto);
    PopDequeues(s1.sh, fs + [f], n);
    ls := PushLabels(f) + PopLabels(PopInto, |f.payload|);
    RunConcat(cap, s, PushLabels(f), PopLabels(PopInto, |f.payload|));
  }

  lemma BelowWrap(cap: nat, w: nat)
    requires cap > 0 && w < U64_SPAN
    ensures WrapSafe(cap, w)
  {
  }

  lemma EmptyRoom(cap: nat, s: State, w: nat, f: Frame)
    requires Bounded(cap, s) && cap > 0 && Quiet(s, w) && Total(f) <= cap && w < U64_SPAN
    ensures WrappingSub(s.sh.writeIdx, s.sh.readIdx) + Total(f) <= cap
    ensures WrapSafe(cap, w) && Unread(s.published, |s.popped|) == 0 && |s.sh.data| == cap
  {
    hide EncodeAll, Queued, Offset;
    QueuedBounds(s.sh, s.published, |s.popped|);
    OffsetEnd(s.published);
  }

  /** Empty frames take an empty ring to any multiple of the header length below the wrap. */
  lemma {:induction false} Advance(cap: nat, data: seq<byte>, n: nat) returns (ls: seq<Label>)
    requires |data| == cap && FRAME_HEADER_LEN <= cap < U32_SPAN && FRAME_HEADER_LEN * n < U64_SPAN
    ensures Honest(ls) && Quiet(Run(cap, Init(data), ls), FRAME_HEADER_LEN * n)
  {
    hide Run, Quiet, EncodeAll;
    if n == 0 {
      ls := [];
      RunNothing(cap, Init(data));
      InitQuiet(data);
    } else {
      var a := Advance(cap, data, n - 1);
      var s := Run(cap, Init(data), a);
      var b := Cycle(cap, s, FRAME_HEADER_LEN * (n - 1), Frame(0, []));
      ls := a + b;
      RunConcat(cap, Init(data), a, b);
    }
  }

  lemma InitQuiet(data: seq<byte>)
    requires 0 < |data| < U32_SPAN
    ensures Quiet(Init(data), 0)
  {
    assert EncodeAll([]) == [];
    InitiallyEmpty(Init(data).sh);
  }

  /** Ten bytes short of the wrap. */
  lemma ReachWrap(cap: nat, data: seq<byte>) returns (ls: seq<Label>)
    requires |data| == cap && 32 <= cap < U32_SPAN
    ensures Honest(ls) && Quiet(Run(cap, Init(data), ls), U64_SPAN - 10)
  {
    hide Run, Quiet;
    var a := Advance(cap, data, 0x2000_0000_0000_0000 - 3);
    var f := Frame(0, [0, 0, 0, 0, 0, 0]);
    var b := Cycle(cap, Run(cap, Init(data), a), U64_SPAN - 24, f);
    ls := a + b;
    RunConcat(cap, Init(data), a, b);
  }

  // ── Across the wrap ──

  const FIRST := Frame(0, [0, 0])

  /** A frame whose last byte is 1, as long as the cells below the jump allow. */
  function Second(m: nat): (f: Frame)
    requires 32 <= m
    ensures Total(f) == m - 9 && f.payload[|f.payload| - 1] == 1
  {
    Frame(0, seq(m - 18, i => 0) + [1])
  }

  /** Where the counters just before and just after the wrap point. */
  lemma Jump(cap: nat, m: nat)
    requires cap > 0 && m == U64_SPAN % cap && 32 <= m
    ensures Cell(cap, U64_SPAN - 10) == m - 10
  {
    var q := U64_SPAN / cap;
    assert U64_SPAN == q * cap + m;
    DivModUnique(U64_SPAN - 10, cap, q, m - 10);
  }

  lemma FirstHeader()
    ensures Encode(FIRST)[..FRAME_HEADER_LEN] == [2, 0, 0, 0, 0, 0, 0, 0]
  {
  }

  lemma OverwrittenHeader()
    ensures DecodeHeader([1, 0, 0, 0, 0, 0, 0, 0]) == (1, 0)
  {
  }

  lemma OverwrittenByte(sh: Shared, m: nat, j: nat)
    requires 32 <= m < |sh.data| < U32_SPAN && Cell(|sh.data|, U64_SPAN - 10) == m - 10
    requires sh.writeIdx == U64_SPAN - 10 && j < FRAME_HEADER_LEN
    ensures AfterPush(AfterPush(sh, FIRST), Second(m)).data[Cell(|sh.data|, (m - 10) + j)] == if j == 0 then 1 else 0
  {
    hide AfterPush, Encode, Cell, Second;
    var cap, sh1 := |sh.data|, AfterPush(sh, FIRST);
    AfterPushCounters(sh, FIRST);
    CellIs(cap, 0);
    CellIs(cap, (m - 10) + j);
    FirstHeader();
    SecondLast(m);
    PushedCells(sh, FIRST, j);
    PushedCells(sh1, Second(m), (m - 10) + j);
    if j > 0 { assert Encode(FIRST)[j] == Encode(FIRST)[..FRAME_HEADER_LEN][j]; }
  }

  /** The shared memory after the two pushes: the second frame's last byte lies on the first
      frame's length. */
  lemma Overwritten(sh: Shared, m: nat)
    requires 32 <= m < |sh.data| < U32_SPAN && Cell(|sh.data|, U64_SPAN - 10) == m - 10
    requires sh.writeIdx == sh.readIdx == U64_SPAN - 10
    ensures var cap, sh1 := |sh.data|, AfterPush(sh, FIRST);
            && sh1.writeIdx == 0 && sh1.readIdx == U64_SPAN - 10
            && RoomFor(cap, sh1.writeIdx, sh1.readIdx, Total(Second(m))) == Enough
            && var sh2 := AfterPush(sh1, Second(m));
            && sh2.writeIdx == m - 9 && sh2.readIdx == U64_SPAN - 10
            && ReadWrapped(sh2.data, m - 10, FRAME_HEADER_LEN) == [1, 0, 0, 0, 0, 0, 0, 0]
  {
    hide AfterPush, Encode, Cell, ReadWrapped, Second;
    var cap := |sh.data|;
    var sh1 := AfterPush(sh, FIRST);
    AfterPushCounters(sh, FIRST);
    AfterPushCounters(sh1, Second(m));
    var sh2 := AfterPush(sh1, Second(m));
    CellIs(cap, 0);
    forall j | 0 <= j < FRAME_HEADER_LEN
      ensures sh2.data[Cell(cap, (m - 10) + j)] == [1, 0, 0, 0, 0, 0, 0, 0][j]
    {
      OverwrittenByte(sh, m, j);
    }
    CellIs(cap, m - 10);
    ReadCells(sh2.data, m - 10, [1, 0, 0, 0, 0, 0, 0, 0]);
  }

  lemma SecondLast(m: nat)
    requires 32 <= m
    ensures Encode(Second(m))[m - 10] == 1
  {
    EncodedSplit(Second(m));
    assert Encode(Second(m))[FRAME_HEADER_LEN + (m - 18)] == Second(m).payload[m - 18];
  }

  /** The pop after the wrap finds a one-byte frame where a two-byte frame was pushed. */
  lemma WrongFront(sh: Shared, m: nat)
    requires 32 <= m < |sh.data| < U32_SPAN && Cell(|sh.data|, U64_SPAN - 10) == m - 10
    requires sh.writeIdx == m - 9 && sh.readIdx == U64_SPAN - 10
    requires ReadWrapped(sh.data, m - 10, FRAME_HEADER_LEN) == [1, 0, 0, 0, 0, 0, 0, 0]
    ensures FrontFrame(sh).Some? && |FrontFrame(sh).value.payload| == 1
  {
    hide ReadWrapped, DecodeHeader, Cell;
    OverwrittenHeader();
  }

  /** A capacity that does not divide 2^64 has an honest run that delivers a wrong frame. */
  lemma WrapBreaksOrder(cap: nat, data: seq<byte>) returns (ls: seq<Label>)
    requires |data| == cap && 32 <= cap < U32_SPAN && U64_SPAN % cap >= 32
    ensures Honest(ls) && !InOrder(Run(cap, Init(data), ls))
  {
    hide Run, FrontFrame, AfterPop, AfterPush, PushLabels, PopLabels, Second, ReadWrapped, EncodeAll, Expected, Cell;
    var m := U64_SPAN % cap;
    Jump(cap, m);
    var a := ReachWrap(cap, data);
    var s := Run(cap, Init(data), a);
    QuietCounters(cap, s);
    EmptyRoom(cap, s, U64_SPAN - 10, FIRST);
    PushAlone(cap, s, FIRST);
    var s1 := Run(cap, s, PushLabels(FIRST));
    Overwritten(s.sh, m);
    PushAlone(cap, s1, Second(m));
    var s2 := Run(cap, s1, PushLabels(Second(m)));
    WrongFront(s2.sh, m);
    var f := FrontFrame(s2.sh).value;
    PopAlone(cap, s2, PopInto);
    var s3 := Run(cap, s2, PopLabels(PopInto, 1));
    var n := |s.popped|;
    assert s3.popped[n] == Delivery(PopInto, f.id, Expected(PopInto, f)) && s3.published[n] == FIRST;
    WholePayload(f);
    WholePayload(FIRST);
    assert !Faithful(s3.popped[n], s3.published[n]);
    RunConcat(cap, Init(data), a, PushLabels(FIRST));
    RunConcat(cap, Init(data), a + PushLabels(FIRST), PushLabels(Second(m)));
    ls := a + PushLabels(FIRST) + PushLabels(Second(m));
    RunConcat(cap, Init(data), ls, PopLabels(PopInto, 1));
    ls := ls + PopLabels(PopInto, 1);
  }

  lemma WholePayload(f: Frame)
    ensures Expected(PopInto, f) == f.payload
  {
  }

  lemma QuietCounters(cap: nat, s: State)
    requires Bounded(cap, s) && Quiet(s, U64_SPAN - 10)
    ensures s.sh.writeIdx == s.sh.readIdx == U64_SPAN - 10 && |s.sh.data| == cap
  {
    hide EncodeAll, Offset;
    OffsetEnd(s.published);
  }

  // ── The exact condition ──

  /** For every capacity that is a multiple of 32 bytes (the gateway rounds to pages), endless
      delivery in order holds if and only if the capacity divides 2^64. */
  lemma InOrderExactly(cap: nat)
    requires 32 <= cap < U32_SPAN && cap % 32 == 0
    ensures AlwaysInOrder(cap) <==> U64_SPAN % cap == 0
  {
    hide Run, InOrder, Init;
    if U64_SPAN % cap == 0 {
      forall data: seq<byte>, ls: seq<Label> | |data| == cap && Honest(ls) ensures InOrder(Run(cap, Init(data), ls)) {
        DividesInOrder(cap, data, ls);
      }
    } else {
      RemainderAtLeast(cap);
      var data: seq<byte> := seq(cap, i => 0);
      var ls := WrapBreaksOrder(cap, data);
    }
  }

  lemma DividesInOrder(cap: nat, data: seq<byte>, ls: seq<Label>)
    requires |data| == cap && 32 <= cap < U32_SPAN && U64_SPAN % cap == 0 && Honest(ls)
    ensures InOrder(Run(cap, Init(data), ls))
  {
    hide Run, Init, EncodeAll;
    assert Reachable(cap, Run(cap, Init(data), ls));
    DeliveredInOrder(cap, Run(cap, Init(data), ls));
  }

  lemma RemainderAtLeast(cap: nat)
    requires 0 < cap && cap % 32 == 0 && U64_SPAN % cap != 0
    ensures U64_SPAN % cap >= 32
  {
    ModOfMod(U64_SPAN, cap, 32);
  }
}
