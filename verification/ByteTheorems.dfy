/** What every interleaving of the byte-stream ring keeps, for all capacities whose address
    arithmetic survives the wrap of the 64-bit counters. */
module ByteTheorems {
  import opened Words
  import opened Frames
  import opened Copies
  import opened ByteRing

  // ── Positions in the stream of published bytes ──

  /** Stream offset of frame `i`. */
  function Offset(fs: seq<Frame>, i: nat): nat
    requires i <= |fs|
  {
    |EncodeAll(fs[..i])|
  }

  lemma OffsetNext(fs: seq<Frame>, i: nat)
    requires i < |fs|
    ensures Offset(fs, i + 1) == Offset(fs, i) + Total(fs[i])
  {
    assert fs[..i + 1] == fs[..i] + [fs[i]];
    EncodeAllSnoc(fs[..i], fs[i]);
  }

  /** The stream from frame `i` on starts with its encoding. */
  lemma StreamAt(fs: seq<Frame>, i: nat)
    requires i < |fs|
    ensures Offset(fs, i) + Total(fs[i]) <= |EncodeAll(fs)|
    ensures EncodeAll(fs)[Offset(fs, i)..Offset(fs, i) + Total(fs[i])] == Encode(fs[i])
  {
    hide EncodeAll, Encode;
    var a, b := fs[..i], fs[i + 1..];
    assert fs == (a + [fs[i]]) + b;
    EncodeAllConcat(a + [fs[i]], b);
    EncodeAllSnoc(a, fs[i]);
    var s, t, u := EncodeAll(a), Encode(fs[i]), EncodeAll(b);
    assert EncodeAll(fs) == (s + t) + u;
    assert ((s + t) + u)[|s|..|s| + |t|] == t;
  }

  lemma OffsetEnd(fs: seq<Frame>)
    ensures Offset(fs, |fs|) == |EncodeAll(fs)|
  {
    assert fs[..|fs|] == fs;
  }

  /** Frames appended later do not move earlier ones. */
  lemma OffsetStable(fs: seq<Frame>, f: Frame, i: nat)
    requires i <= |fs|
    ensures Offset(fs + [f], i) == Offset(fs, i)
  {
    assert (fs + [f])[..i] == fs[..i];
  }

  // ── Shared memory holding a queue ──

  /** Both counters' `% cap` agree with the unwrapped position. */
  predicate WrapSafe(cap: nat, w: nat)
    requires cap > 0
  {
    U64_SPAN % cap == 0 || w < U64_SPAN
  }

  lemma WrapSafeCell(cap: nat, w: nat)
    requires cap > 0 && WrapSafe(cap, w)
    ensures (w % U64_SPAN) % cap == Cell(cap, w % U64_SPAN) == Cell(cap, w)
  {
    if U64_SPAN % cap == 0 { ModOfMod(w, U64_SPAN, cap); } else { DivModUnique(w, U64_SPAN, 0, w); }
  }

  ghost predicate Sized(cap: nat, fs: seq<Frame>) {
    forall i :: 0 <= i < |fs| ==> Total(fs[i]) <= cap && |fs[i].payload| < U32_SPAN
  }

  /** The unread bytes, taken modulo the capacity, spell the encodings of the unread frames. */
  ghost predicate Holds(cap: nat, data: seq<byte>, published: seq<Frame>, popped: nat)
    requires cap > 0
  {
    && |data| == cap
    && popped <= |published|
    && Sized(cap, published)
    && |EncodeAll(published)| <= Offset(published, popped) + cap
    && forall q :: Offset(published, popped) <= q < |EncodeAll(published)| ==>
         data[Cell(cap, q)] == EncodeAll(published)[q]
  }

  function Expected(read: Read, f: Frame): seq<byte> { f.payload[..CopyLen(read, |f.payload|)] }

  predicate Faithful(d: Delivery, f: Frame) { d.id == f.id && d.bytes == Expected(d.read, f) }

  ghost predicate ProducerInv(cap: nat, s: State)
    requires cap > 0 && Bounded(cap, s) && |s.popped| <= |s.published|
  {
    var W := |EncodeAll(s.published)|;
    && s.sh.writeIdx == W % U64_SPAN
    && match s.prod
       case PIdle => true
       case PLoadRead(f, write) => write == W % U64_SPAN
       case PCopy(f, write, k) =>
         && write == W % U64_SPAN
         && W + Total(f) <= Offset(s.published, |s.popped|) + cap
         && forall j :: 0 <= j < k ==> s.sh.data[Cell(cap, W + j)] == Encode(f)[j]
  }

  ghost predicate ConsumerInv(s: State)
    requires |s.popped| <= |s.published|
  {
    var C := |s.popped|;
    var at := Offset(s.published, C) % U64_SPAN;
    && s.sh.readIdx == at
    && match s.cons
       case CIdle => true
       case CLoadWrite(_, a) => a == at
       case CHeader(_, a, avail, hdr) =>
         a == at && C < |s.published| && avail >= Total(s.published[C]) && hdr <= Encode(s.published[C])
       case CBody(read, a, id, len, got) =>
         && a == at && C < |s.published|
         && id == s.published[C].id && len == |s.published[C].payload|
         && got <= Expected(read, s.published[C])
       case CStore(d, a, len) =>
         && a == at && C < |s.published|
         && len == |s.published[C].payload| && Faithful(d, s.published[C])
  }

  ghost predicate LogsInv(s: State) {
    && |s.popped| <= |s.published|
    && (forall i :: 0 <= i < |s.popped| ==> Faithful(s.popped[i], s.published[i]))
    && (forall i :: 0 <= i < |s.outcomes| ==> s.outcomes[i] != RingCorrupt)
  }

  ghost predicate Inv(cap: nat, s: State) {
    && 0 < cap < U32_SPAN + FRAME_HEADER_LEN
    && Bounded(cap, s)
    && LogsInv(s)
    && Holds(cap, s.sh.data, s.published, |s.popped|)
    && ProducerInv(cap, s)
    && ConsumerInv(s)
  }

  /** The bytes published so far leave the address arithmetic exact. */
  predicate Small(cap: nat, s: State)
    requires cap > 0
  {
    WrapSafe(cap, |EncodeAll(s.published)|)
  }

  // ── Arithmetic of the wrapped counters ──

  lemma WrappedDistance(w: nat, r: nat, cap: nat)
    requires r <= w <= r + cap && cap < U64_SPAN
    ensures WrappingSub(w % U64_SPAN, r % U64_SPAN) == w - r
  {
    var x, y := w / U64_SPAN, r / U64_SPAN;
    assert w % U64_SPAN - r % U64_SPAN == w - r + U64_SPAN * (y - x);
  }

  lemma WrappedAdvance(w: nat, n: nat)
    ensures WrappingAdd(w % U64_SPAN, n) == (w + n) % U64_SPAN
  {
    ModAdd(w, n, U64_SPAN);
  }

  lemma CellsDistinct(cap: nat, p: nat, q: nat)
    requires cap > 0 && p < q < p + cap
    ensures Cell(cap, p) != Cell(cap, q)
  {
    ModDistinct(p, q, cap);
  }

  /** Byte `k` of a frame that starts at stream position `w` lies in the cell of `w + k`. */
  lemma FrameCell(cap: nat, w: nat, len: nat, k: nat)
    requires cap > 0 && WrapSafe(cap, w) && k < FRAME_HEADER_LEN + len <= cap
    ensures FrameAt(cap, (w % U64_SPAN) % cap, len, k) == Cell(cap, w + k)
  {
    WrapSafeCell(cap, w);
    ModAdd(w, k, cap);
  }

  // ── Non-interference ──

  lemma ConsumerUndisturbed(s: State, s': State)
    requires |s.popped| <= |s.published| && ConsumerInv(s)
    requires s'.cons == s.cons && s'.popped == s.popped && s'.sh.readIdx == s.sh.readIdx
    requires s.published <= s'.published
    ensures ConsumerInv(s')
  {
    hide Encode, Expected, EncodeAll;
    var C := |s.popped|;
    assert s'.published[..C] == s.published[..C];
    assert C < |s.published| ==> s'.published[C] == s.published[C];
  }

  lemma ProducerUndisturbed(cap: nat, s: State, s': State)
    requires cap > 0 && Bounded(cap, s) && Bounded(cap, s')
    requires |s.popped| <= |s'.popped| <= |s.published| && ProducerInv(cap, s)
    requires s'.prod == s.prod && s'.published == s.published
    requires s'.sh.writeIdx == s.sh.writeIdx && s'.sh.data == s.sh.data
    ensures ProducerInv(cap, s')
  {
    hide EncodeAll;
    OffsetMonotone(s.published, |s.popped|, |s'.popped|);
  }

  lemma {:induction false} OffsetMonotone(fs: seq<Frame>, i: nat, j: nat)
    requires i <= j <= |fs|
    ensures Offset(fs, i) <= Offset(fs, j)
  {
    hide Offset;
    if i < j {
      OffsetMonotone(fs, i, j - 1);
      OffsetNext(fs, j - 1);
    }
  }

  // ── Producer steps ──

  /** The space check is exact on an honest ring. */
  lemma RoomExact(cap: nat, s: State, f: Frame)
    requires Inv(cap, s)
    ensures var W, R := |EncodeAll(s.published)|, Offset(s.published, |s.popped|);
            RoomFor(cap, s.sh.writeIdx, s.sh.readIdx, Total(f)) == if W + Total(f) <= R + cap then Enough else Full
  {
    hide EncodeAll, Offset, Encode;
    OffsetMonotone(s.published, |s.popped|, |s.published|);
    OffsetEnd(s.published);
    WrappedDistance(|EncodeAll(s.published)|, Offset(s.published, |s.popped|), cap);
  }

  lemma LoadReadKeepsInv(cap: nat, s: State)
    requires Inv(cap, s) && s.prod.PLoadRead?
    ensures Inv(cap, ProducerStep(cap, s))
  {
    hide EncodeAll, Offset, Encode, RoomFor, ConsumerInv;
    RoomExact(cap, s, s.prod.f);
    ConsumerUndisturbed(s, ProducerStep(cap, s));
  }

  /** A byte stored beyond the unread bytes disturbs none of them. */
  lemma StoreKeepsHolds(cap: nat, data: seq<byte>, published: seq<Frame>, popped: nat, p: nat, b: byte)
    requires cap > 0 && Holds(cap, data, published, popped)
    requires |EncodeAll(published)| <= p < Offset(published, popped) + cap
    ensures Holds(cap, WithByte(data, Cell(cap, p), b), published, popped)
  {
    hide EncodeAll, Offset, Cell;
    forall q | Offset(published, popped) <= q < |EncodeAll(published)|
      ensures WithByte(data, Cell(cap, p), b)[Cell(cap, q)] == EncodeAll(published)[q]
    {
      CellsDistinct(cap, q, p);
    }
  }

  lemma CopyByteKeepsInv(cap: nat, s: State)
    requires Inv(cap, s) && Small(cap, s) && s.prod.PCopy? && s.prod.k < Total(s.prod.f)
    ensures Inv(cap, ProducerStep(cap, s))
  {
    hide EncodeAll, Offset, Encode, ConsumerInv, FrameAt, Cell;
    var W, k, f := |EncodeAll(s.published)|, s.prod.k, s.prod.f;
    FrameCell(cap, W, |f.payload|, k);
    StoreKeepsHolds(cap, s.sh.data, s.published, |s.popped|, W + k, Encode(f)[k]);
    var s' := ProducerStep(cap, s);
    ConsumerUndisturbed(s, s');
    forall j | 0 <= j < k + 1 ensures s'.sh.data[Cell(cap, W + j)] == Encode(f)[j] {
      if j < k { CellsDistinct(cap, W + j, W + k); }
    }
  }

  lemma PublishKeepsHolds(cap: nat, data: seq<byte>, published: seq<Frame>, popped: nat, f: Frame)
    requires cap > 0 && Holds(cap, data, published, popped)
    requires Total(f) <= cap && |f.payload| < U32_SPAN
    requires |EncodeAll(published)| + Total(f) <= Offset(published, popped) + cap
    requires forall j :: 0 <= j < Total(f) ==> data[Cell(cap, |EncodeAll(published)| + j)] == Encode(f)[j]
    ensures Holds(cap, data, published + [f], popped)
  {
    hide EncodeAll, Offset, Cell, Encode;
    EncodeAllSnoc(published, f);
    OffsetStable(published, f, popped);
    var W := |EncodeAll(published)|;
    forall q | Offset(published + [f], popped) <= q < |EncodeAll(published + [f])|
      ensures data[Cell(cap, q)] == EncodeAll(published + [f])[q]
    {
      if q >= W { assert data[Cell(cap, W + (q - W))] == Encode(f)[q - W]; }
    }
  }

  lemma PublishKeepsInv(cap: nat, s: State)
    requires Inv(cap, s) && s.prod.PCopy? && s.prod.k == Total(s.prod.f)
    ensures Inv(cap, ProducerStep(cap, s))
  {
    hide EncodeAll, Offset, Encode, ConsumerInv, Cell, WrappingAdd;
    var W, f, s' := |EncodeAll(s.published)|, s.prod.f, ProducerStep(cap, s);
    PublishKeepsHolds(cap, s.sh.data, s.published, |s.popped|, f);
    EncodeAllSnoc(s.published, f);
    WrappedAdvance(W, Total(f));
    ConsumerUndisturbed(s, s');
    assert LogsInv(s');
  }

  lemma ProducerStepKeepsInv(cap: nat, s: State)
    requires Inv(cap, s) && Small(cap, s)
    ensures Inv(cap, ProducerStep(cap, s))
  {
    assert Bounded(cap, s);
    hide Inv, Encode, EncodeAll, Small;
    match s.prod
    case PIdle =>
    case PLoadRead(_, _) => LoadReadKeepsInv(cap, s);
    case PCopy(f, _, k) => if k < Total(f) { CopyByteKeepsInv(cap, s); } else { PublishKeepsInv(cap, s); }
  }

  // ── Consumer steps ──

  /** The unread frame at the front, as the ring's cells show it. */
  lemma FrontCells(cap: nat, s: State)
    requires Inv(cap, s) && |s.popped| < |s.published|
    ensures var R, f := Offset(s.published, |s.popped|), s.published[|s.popped|];
            && R + Total(f) <= |EncodeAll(s.published)| && Total(f) <= cap && |f.payload| < U32_SPAN
            && forall j :: 0 <= j < Total(f) ==> s.sh.data[Cell(cap, R + j)] == Encode(f)[j]
  {
    hide EncodeAll, Offset, Cell, Encode, ProducerInv, ConsumerInv;
    var C := |s.popped|;
    var R, f := Offset(s.published, C), s.published[C];
    StreamAt(s.published, C);
    var st := EncodeAll(s.published);
    forall j | 0 <= j < Total(f) ensures s.sh.data[Cell(cap, R + j)] == Encode(f)[j] {
      assert Encode(f)[j] == st[R..R + Total(f)][j] == st[R + j];
    }
  }

  lemma LoadWriteKeepsInv(cap: nat, s: State)
    requires Inv(cap, s) && s.cons.CLoadWrite?
    ensures Inv(cap, ConsumerStep(cap, s))
  {
    hide EncodeAll, Offset, Encode, ProducerInv, Cell, WrappingSub;
    ProducerUndisturbed(cap, s, ConsumerStep(cap, s));
    AvailExact(cap, s);
    if |s.popped| < |s.published| { FrontCells(cap, s); }
  }

  lemma AvailExact(cap: nat, s: State)
    requires Inv(cap, s)
    ensures var W, R := |EncodeAll(s.published)|, Offset(s.published, |s.popped|);
            Min(WrappingSub(s.sh.writeIdx, s.sh.readIdx), cap) == W - R
    ensures |s.popped| == |s.published| ==> |EncodeAll(s.published)| == Offset(s.published, |s.popped|)
  {
    hide EncodeAll, Offset, Encode, WrappingSub, Cell;
    OffsetMonotone(s.published, |s.popped|, |s.published|);
    OffsetEnd(s.published);
    WrappedDistance(|EncodeAll(s.published)|, Offset(s.published, |s.popped|), cap);
  }

  /** The header byte the consumer loads next. */
  lemma HeaderByte(cap: nat, s: State)
    requires Inv(cap, s) && Small(cap, s) && s.cons.CHeader?
    ensures s.sh.data[WrapAt(cap, s.cons.at % cap, FRAME_HEADER_LEN, |s.cons.hdr|)]
         == Encode(s.published[|s.popped|])[|s.cons.hdr|]
  {
    hide EncodeAll, Offset, Encode, ProducerInv, WrapAt;
    var R, j := Offset(s.published, |s.popped|), |s.cons.hdr|;
    FrontCells(cap, s);
    WrapSafeCell(cap, R);
    ModAdd(R, j, cap);
    assert s.sh.data[Cell(cap, R + j)] == Encode(s.published[|s.popped|])[j];
  }

  lemma HeaderByteKeepsInv(cap: nat, s: State)
    requires Inv(cap, s) && Small(cap, s) && s.cons.CHeader?
    ensures Inv(cap, ConsumerStep(cap, s))
  {
    hide EncodeAll, Offset, Encode, ProducerInv, Cell, DecodeHeader, WrapAt, Expected, Small;
    var f := s.published[|s.popped|];
    HeaderByte(cap, s);
    FrontCells(cap, s);
    HeaderOfEncoded(f);
    ProducerUndisturbed(cap, s, ConsumerStep(cap, s));
    var hdr := s.cons.hdr + [Encode(f)[|s.cons.hdr|]];
    assert hdr <= Encode(f);
    assert hdr == Encode(f)[..|hdr|];
  }

  /** The payload byte the consumer loads next. */
  lemma BodyByte(cap: nat, s: State)
    requires Inv(cap, s) && Small(cap, s) && s.cons.CBody? && |s.cons.got| < CopyLen(s.cons.read, s.cons.len)
    ensures s.sh.data[WrapAt(cap, (s.cons.at % cap + FRAME_HEADER_LEN) % cap, CopyLen(s.cons.read, s.cons.len), |s.cons.got|)]
         == s.published[|s.popped|].payload[|s.cons.got|]
  {
    hide EncodeAll, Offset, ProducerInv, WrapAt, EncodeHeader;
    var R, j, f := Offset(s.published, |s.popped|), |s.cons.got|, s.published[|s.popped|];
    FrontCells(cap, s);
    WrapSafeCell(cap, R);
    ModAdd(R, FRAME_HEADER_LEN, cap);
    ModAdd(R + FRAME_HEADER_LEN, j, cap);
    assert s.sh.data[Cell(cap, R + (FRAME_HEADER_LEN + j))] == Encode(f)[FRAME_HEADER_LEN + j];
  }

  lemma BodyKeepsInv(cap: nat, s: State)
    requires Inv(cap, s) && Small(cap, s) && s.cons.CBody?
    ensures Inv(cap, ConsumerStep(cap, s))
  {
    hide EncodeAll, Offset, Encode, ProducerInv, Cell, WrapAt, Small;
    ProducerUndisturbed(cap, s, ConsumerStep(cap, s));
    var f := s.published[|s.popped|];
    var e := Expected(s.cons.read, f);
    if |s.cons.got| < CopyLen(s.cons.read, s.cons.len) {
      BodyByte(cap, s);
      assert s.cons.got + [f.payload[|s.cons.got|]] <= e;
    } else {
      assert s.cons.got == e;
    }
  }

  lemma PopKeepsHolds(cap: nat, data: seq<byte>, published: seq<Frame>, popped: nat)
    requires cap > 0 && Holds(cap, data, published, popped) && popped < |published|
    ensures Holds(cap, data, published, popped + 1)
  {
    hide EncodeAll, Offset, Cell;
    OffsetNext(published, popped);
  }

  lemma StoreReadKeepsInv(cap: nat, s: State)
    requires Inv(cap, s) && s.cons.CStore?
    ensures Inv(cap, ConsumerStep(cap, s))
  {
    hide EncodeAll, Offset, Encode, ProducerInv, Cell, Expected, WrappingAdd;
    var C, s' := |s.popped|, ConsumerStep(cap, s);
    PopKeepsHolds(cap, s.sh.data, s.published, C);
    OffsetNext(s.published, C);
    WrappedAdvance(Offset(s.published, C), Total(s.published[C]));
    ProducerUndisturbed(cap, s, s');
    assert LogsInv(s');
  }

  lemma ConsumerStepKeepsInv(cap: nat, s: State)
    requires Inv(cap, s) && Small(cap, s)
    ensures Inv(cap, ConsumerStep(cap, s))
  {
    assert Bounded(cap, s);
    hide Inv, Encode, EncodeAll, Small;
    match s.cons
    case CIdle =>
    case CLoadWrite(_, _) => LoadWriteKeepsInv(cap, s);
    case CHeader(_, _, _, _) => HeaderByteKeepsInv(cap, s);
    case CBody(_, _, _, _, _) => BodyKeepsInv(cap, s);
    case CStore(_, _, _) => StoreReadKeepsInv(cap, s);
  }

  // ── Whole runs ──

  lemma StepKeepsInv(cap: nat, s: State, l: Label)
    requires Inv(cap, s) && Small(cap, s) && !l.Hostile?
    ensures Inv(cap, Step(cap, s, l))
  {
    match l
    case ProducerTick => hide Inv, ProducerStep; ProducerStepKeepsInv(cap, s);
    case ConsumerTick => hide Inv, ConsumerStep; ConsumerStepKeepsInv(cap, s);
    case BeginPush(f) =>
      hide ConsumerInv, EncodeAll, Offset, Cell;
      ConsumerUndisturbed(s, Step(cap, s, l));
    case BeginRead(read) =>
      hide ProducerInv, EncodeAll, Offset, Cell;
      ProducerUndisturbed(cap, s, Step(cap, s, l));
  }

  lemma StepExtendsStream(cap: nat, s: State, l: Label)
    requires Bounded(cap, s)
    ensures s.published <= Step(cap, s, l).published
    ensures |EncodeAll(s.published)| <= |EncodeAll(Step(cap, s, l).published)|
  {
    hide EncodeAll, WrapAt, FrameAt;
    var fs, fs' := s.published, Step(cap, s, l).published;
    assert fs' == fs || fs' == fs + [fs'[|fs|]];
    if fs' != fs { EncodeAllSnoc(fs, fs'[|fs|]); }
  }

  lemma InitInv(data: seq<byte>)
    requires 0 < |data| < U32_SPAN + FRAME_HEADER_LEN
    ensures Inv(|data|, Init(data))
  {
    assert EncodeAll([]) == [];
  }

  /** Every honest interleaving keeps the invariant as long as the counters wrap harmlessly. */
  lemma {:induction false} RunKeepsInv(cap: nat, s: State, ls: seq<Label>)
    requires Inv(cap, s) && Honest(ls) && Small(cap, Run(cap, s, ls))
    ensures Inv(cap, Run(cap, s, ls))
  {
    assert Bounded(cap, s) && cap > 0;
    hide Inv, Bounded, Step, EncodeAll;
    if ls != [] {
      var s', l := Run(cap, s, ls[..|ls| - 1]), ls[|ls| - 1];
      StepExtendsStream(cap, s', l);
      RunKeepsInv(cap, s, ls[..|ls| - 1]);
      StepKeepsInv(cap, s', l);
    }
  }

  /** A state some honest interleaving reaches, with the counters still wrapping harmlessly. */
  ghost predicate Reachable(cap: nat, s: State) {
    && 0 < cap < U32_SPAN + FRAME_HEADER_LEN
    && Small(cap, s)
    && exists data: seq<byte>, ls: seq<Label> :: |data| == cap && Honest(ls) && s == Run(cap, Init(data), ls)
  }

  lemma ReachableInv(cap: nat, s: State)
    requires Reachable(cap, s)
    ensures Inv(cap, s)
  {
    hide Inv, Run, Init, Bounded, EncodeAll;
    var data: seq<byte>, ls :| |data| == cap && Honest(ls) && s == Run(cap, Init(data), ls);
    InitInv(data);
    RunKeepsInv(cap, Init(data), ls);
  }

  /** FIFO: the frames popped are the first frames pushed, in order, each with its id and its
      bytes untorn; the unread bytes never exceed the ring; no push reports corruption. */
  lemma DeliveredInOrder(cap: nat, s: State)
    requires Reachable(cap, s)
    ensures |s.popped| <= |s.published|
    ensures forall i :: 0 <= i < |s.popped| ==> Faithful(s.popped[i], s.published[i])
    ensures |EncodeAll(s.published)| - Offset(s.published, |s.popped|) <= cap
    ensures RingCorrupt !in s.outcomes
  {
    ReachableInv(cap, s);
  }

  /** The counters are the stream positions modulo 2^64, and the region between them, taken modulo the
      capacity, is the encodings of the unread frames. */
  lemma UnreadRegion(cap: nat, s: State)
    requires Reachable(cap, s)
    ensures Bounded(cap, s) && |s.popped| <= |s.published|
    ensures s.sh.readIdx == Offset(s.published, |s.popped|) % U64_SPAN
    ensures s.sh.writeIdx == |EncodeAll(s.published)| % U64_SPAN
    ensures WrappingSub(s.sh.writeIdx, s.sh.readIdx) == |EncodeAll(s.published)| - Offset(s.published, |s.popped|)
    ensures forall q :: Offset(s.published, |s.popped|) <= q < |EncodeAll(s.published)| ==>
              s.sh.data[Cell(cap, q)] == EncodeAll(s.published)[q]
  {
    ReachableInv(cap, s);
    hide EncodeAll, Offset, Encode, Cell, WrappingSub;
    OffsetMonotone(s.published, |s.popped|, |s.published|);
    OffsetEnd(s.published);
    WrappedDistance(|EncodeAll(s.published)|, Offset(s.published, |s.popped|), cap);
  }

  /** The cell the producer's two-part copies write next is no cell of the unread region. */
  lemma ProducerAvoidsUnread(cap: nat, s: State, q: nat)
    requires Reachable(cap, s) && s.prod.PCopy?
    requires |s.popped| <= |s.published| && Bounded(cap, s) && s.prod.k < Total(s.prod.f)
    requires Offset(s.published, |s.popped|) <= q < |EncodeAll(s.published)|
    ensures Cell(cap, q) != FrameAt(cap, s.prod.write % cap, |s.prod.f.payload|, s.prod.k)
  {
    ReachableInv(cap, s);
    hide EncodeAll, Offset, Encode, Cell, FrameAt, ConsumerInv;
    var W := |EncodeAll(s.published)|;
    FrameCell(cap, W, |s.prod.f.payload|, s.prod.k);
    CellsDistinct(cap, q, W + s.prod.k);
  }

  /** A push reports full exactly when the frame does not fit beside the unread bytes at its load
      of `read_idx`. */
  lemma FullExactly(cap: nat, s: State)
    requires Reachable(cap, s) && s.prod.PLoadRead?
    ensures Bounded(cap, s) && |s.popped| <= |s.published|
    ensures ProducerStep(cap, s).outcomes == s.outcomes + [RingFull] <==>
              |EncodeAll(s.published)| - Offset(s.published, |s.popped|) + Total(s.prod.f) > cap
  {
    ReachableInv(cap, s);
    hide EncodeAll, Offset, Encode, RoomFor, ConsumerInv;
    RoomExact(cap, s, s.prod.f);
  }

  /** A read finds a frame exactly when one is unread, and then never gives it up as corrupt. */
  lemma ReadsFindFrames(cap: nat, s: State)
    requires Reachable(cap, s)
    ensures Bounded(cap, s)
    ensures s.cons.CLoadWrite? ==> (ConsumerStep(cap, s).cons.CHeader? <==> |s.popped| < |s.published|)
    ensures s.cons.CHeader? ==> ConsumerStep(cap, s).cons.CHeader? || ConsumerStep(cap, s).cons.CBody?
  {
    ReachableInv(cap, s);
    hide EncodeAll, Offset, Encode, ProducerInv, Cell, DecodeHeader, WrapAt, WrappingSub, Small;
    AvailExact(cap, s);
    if |s.popped| < |s.published| { FrontCells(cap, s); }
    if s.cons.CHeader? {
      HeaderByteKeepsInv(cap, s);
      ReadKeepsGoing(cap, s);
    }
  }

  lemma ReadKeepsGoing(cap: nat, s: State)
    requires Inv(cap, s) && Small(cap, s) && s.cons.CHeader?
    ensures ConsumerStep(cap, s).cons.CHeader? || ConsumerStep(cap, s).cons.CBody?
  {
    hide EncodeAll, Offset, Encode, ProducerInv, Cell, DecodeHeader, WrapAt, Small;
    var f := s.published[|s.popped|];
    HeaderByte(cap, s);
    FrontCells(cap, s);
    HeaderOfEncoded(f);
    var hdr := s.cons.hdr + [Encode(f)[|s.cons.hdr|]];
    assert hdr == Encode(f)[..|hdr|];
  }
}
