/** The relay between a client's rings and the upstream: bounded draining of the client-to-gateway
    ring into one byte stream, while the client keeps pushing, and pushing into the
    gateway-to-client ring with backpressure. */
module Relay {
  import opened Words
  import opened Options
  import opened Frames
  import opened Channels
  import opened DrainPlan
  import Slot = SlotObject

  // ── The client, pushing while the relay drains ──

  datatype Batch = Batch(id: u32, msgs: seq<seq<byte>>)

  /** Bytes a list of batches can add to a ring. */
  ghost function Offered(batches: seq<Batch>): nat {
    if batches == [] then 0 else |EncodeAll(FramesOf(batches[0].id, batches[0].msgs))| + Offered(batches[1..])
  }

  /** Even if every batch is accepted, no more than `limit` bytes are published, and the ring's
      addresses are exact up to there. */
  ghost predicate Holdable(ch: Channel, published: seq<Frame>, batches: seq<Batch>, limit: nat) {
    |EncodeAll(published)| + Offered(batches) <= limit && Lasts(ch, limit)
  }

  /** The client's next batch arrives. */
  method Arrive(ch: Channel, arrivals: seq<Batch>, ghost limit: nat) returns (rest: seq<Batch>)
    requires Honest(ch) && Holdable(ch, Published(ch), arrivals, limit)
    modifies Repr(ch)
    ensures Honest(ch) && Holdable(ch, Published(ch), rest, limit) && Count(ch) == old(Count(ch))
    ensures old(Published(ch)) <= Published(ch)
    ensures rest == if arrivals == [] then [] else arrivals[1..]
    ensures arrivals == [] ==> Published(ch) == old(Published(ch))
  {
    hide Honest, Lasts, EncodeAll, FramesOf;
    if arrivals == [] { return []; }
    var b := arrivals[0];
    ghost var was, fs := Published(ch), FramesOf(b.id, b.msgs);
    LastsDown(ch, limit, |EncodeAll(was)| + |EncodeAll(fs)|);
    var _, sent := TrySendBatch(ch, b.id, b.msgs);
    rest := arrivals[1..];
    EncodeAllConcat(was, fs[..sent]);
    EncodeAllConcat(fs[..sent], fs[sent..]);
    assert fs == fs[..sent] + fs[sent..];
  }

  // ── The upstream ──

  datatype Fate = Delivered | FailsAfter(n: nat)

  /** The write side of the upstream connection. */
  class Upstream {
    var wire: seq<byte>
    var fates: seq<Fate>
    ghost var writes: seq<seq<byte>>

    constructor (fates: seq<Fate>)
      ensures wire == [] && writes == [] && this.fates == fates
    {
      wire, writes, this.fates := [], [], fates;
    }

    /** `write_all_nb_proxy`: everything, or an error after a prefix. */
    method WriteAll(bytes: seq<byte>) returns (ok: bool)
      modifies this
      ensures writes == old(writes) + [bytes]
      ensures ok ==> wire == old(wire) + bytes
      ensures !ok ==> exists n | 0 <= n <= |bytes| :: wire == old(wire) + bytes[..n]
      ensures old(wire) <= wire
      ensures Reliable(old(fates)) ==> ok && Reliable(fates)
    {
      writes := writes + [bytes];
      var n := |bytes|;
      ok := true;
      if fates != [] {
        var fate := fates[0];
        assert fate in fates;
        fates := fates[1..];
        if fate.FailsAfter? { ok, n := false, Min(fate.n, n); }
      }
      wire := wire + bytes[..n];
      assert bytes[..|bytes|] == bytes;
    }
  }

  predicate Reliable(fates: seq<Fate>) { forall f :: f in fates ==> f.Delivered? }

  // ── Draining the client-to-gateway ring ──

  /** The wire form of the frames from `from` up to `to`. */
  ghost function Between(fs: seq<Frame>, from: nat, to: nat): seq<byte>
    requires from <= to <= |fs|
  {
    EncodeAll(fs[from..to])
  }

  lemma BetweenMore(fs: seq<Frame>, from: nat, c: nat)
    requires from <= c < |fs|
    ensures Between(fs, from, c + 1) == Between(fs, from, c) + Encode(fs[c])
  {
    assert fs[from..c + 1] == fs[from..c] + [fs[c]];
    EncodeAllSnoc(fs[from..c], fs[c]);
  }

  lemma BetweenSame(fs: seq<Frame>, fs': seq<Frame>, from: nat, c: nat)
    requires from <= c <= |fs| && fs <= fs'
    ensures Between(fs', from, c) == Between(fs, from, c)
  {
    assert fs'[from..c] == fs[from..c];
  }

  lemma BetweenNone(fs: seq<Frame>, c: nat)
    requires c <= |fs|
    ensures Between(fs, c, c) == []
  {
    assert fs[c..c] == [];
  }

  lemma {:induction false} BetweenGrows(fs: seq<Frame>, from: nat, c: nat, d: nat)
    requires from <= c <= d <= |fs|
    ensures Between(fs, from, d) == Between(fs, from, c) + Between(fs, c, d)
  {
    assert fs[from..d] == fs[from..c] + fs[c..d];
    EncodeAllConcat(fs[from..c], fs[c..d]);
  }

  /** Take the oldest frame in its wire form: straight from the slot, or popped and re-framed. */
  method TakeFramed(ch: Channel) returns (r: Option<seq<byte>>)
    requires Honest(ch)
    modifies Repr(ch)
    ensures Honest(ch) && Published(ch) == old(Published(ch)) && old(Count(ch)) <= |old(Published(ch))|
    ensures r.None? <==> old(Waiting(ch)) == []
    ensures r.None? ==> Count(ch) == old(Count(ch))
    ensures r.Some? ==> Count(ch) == old(Count(ch)) + 1 && r.value == Encode(old(Waiting(ch))[0])
  {
    HonestBounds(ch);
    match ch
    case SlotChannel(s) =>
      r := PeekSlot(ch);
      if r.Some? { AdvanceSlot(ch); }
    case ByteChannel(b) =>
      hide Honest, Encode;
      var o := Pop(ch);
      if o.None? { return None; }
      r := Some(EncodeInto([], o.value.id, o.value.payload));
  }

  /** `encode_into`: append a whole encoded frame. */
  function EncodeInto(out: seq<byte>, id: u32, data: seq<byte>): (r: seq<byte>)
    ensures r == out + Encode(Frame(id, data))
  {
    (out + EncodeHeader(|data| % U32_SPAN, id)) + data
  }

  method PeekSlot(ch: Channel) returns (r: Option<seq<byte>>)
    requires Honest(ch) && ch.SlotChannel?
    ensures Count(ch) <= |Published(ch)|
    ensures r == if Waiting(ch) == [] then None else Some(Encode(Waiting(ch)[0]))
  {
    HonestBounds(ch);
    hide Encode, Slot.Queued;
    r := ch.s.PeekFrame();
  }

  method AdvanceSlot(ch: Channel)
    requires Honest(ch) && ch.SlotChannel? && Count(ch) < |Published(ch)|
    modifies Repr(ch)
    ensures Honest(ch) && Published(ch) == old(Published(ch)) && Count(ch) == old(Count(ch)) + 1
  {
    hide Slot.Queued;
    ch.s.Advance();
    HonestBounds(ch);
  }

  /** Partway through a drain that began with `was` published and `from` of it taken: `out` is
      `start` and the wire form of every frame taken since, in order. */
  ghost predicate Drained(ch: Channel, was: seq<Frame>, from: nat, start: seq<byte>, out: seq<byte>)
    reads Repr(ch)
  {
    && Honest(ch) && was <= Published(ch)
    && from <= Count(ch) <= |Published(ch)|
    && out == start + Between(Published(ch), from, Count(ch))
  }

  lemma DrainedStart(ch: Channel, start: seq<byte>)
    requires Honest(ch)
    ensures Drained(ch, Published(ch), Count(ch), start, start)
  {
    hide Honest, Between;
    HonestBounds(ch);
    BetweenNone(Published(ch), Count(ch));
    assert start + [] == start;
  }

  /** The client's next batch arrives while a drain is under way. */
  method ArriveDuring(ch: Channel, arrivals: seq<Batch>, ghost was: seq<Frame>, ghost from: nat,
                      ghost start: seq<byte>, ghost out: seq<byte>, ghost limit: nat)
    returns (rest: seq<Batch>)
    requires Drained(ch, was, from, start, out) && Holdable(ch, Published(ch), arrivals, limit)
    modifies Repr(ch)
    ensures Drained(ch, was, from, start, out) && Holdable(ch, Published(ch), rest, limit)
    ensures Count(ch) == old(Count(ch)) && old(Published(ch)) <= Published(ch)
    ensures arrivals == [] ==> rest == [] && Published(ch) == old(Published(ch))
  {
    hide Honest, Between, Published, Count, Holdable;
    ghost var fs := Published(ch);
    rest := Arrive(ch, arrivals, limit);
    BetweenSame(fs, Published(ch), from, Count(ch));
  }

  /** Taking one more frame extends a drain by its encoding. */
  lemma DrainedMore(fs: seq<Frame>, from: nat, c: nat, start: seq<byte>, out: seq<byte>)
    requires from <= c < |fs| && out == start + Between(fs, from, c)
    ensures out + Encode(fs[c]) == start + Between(fs, from, c + 1)
  {
    hide Between, Encode;
    BetweenMore(fs, from, c);
    assert (start + Between(fs, from, c)) + Encode(fs[c]) == start + (Between(fs, from, c) + Encode(fs[c]));
  }

  method TakeDuring(ch: Channel, framed: seq<byte>, ghost was: seq<Frame>, ghost from: nat, ghost start: seq<byte>)
    returns (more: bool, framed': seq<byte>)
    requires Drained(ch, was, from, start, framed)
    modifies Repr(ch)
    ensures Drained(ch, was, from, start, framed') && Published(ch) == old(Published(ch))
    ensures Count(ch) == old(Count(ch)) + if more then 1 else 0
    ensures more ==> |framed'| == |framed| + FRAME_HEADER_LEN + |Published(ch)[Count(ch) - 1].payload|
    ensures !more ==> framed' == framed && Count(ch) == |Published(ch)|
  {
    hide Honest, Between, Published, Count, Encode;
    ghost var c := Count(ch);
    var o := TakeFramed(ch);
    if o.None? { return false, framed; }
    DrainedMore(Published(ch), from, c, start, framed);
    return true, framed + o.value;
  }

  /** One bounded drain into `framed`, on either ring kind, with the client pushing in between:
      exactly the encodings of the frames removed, in order. The budget is checked before every
      frame, so only the last one may overrun it; the drain stops only at the budget or on an empty
      ring, and a non-empty ring always loses a frame. */
  method CoalesceC2g(ch: Channel, start: seq<byte>, arrivals: seq<Batch>, ghost limit: nat)
    returns (framed: seq<byte>, n: nat, rest: seq<Batch>)
    requires Honest(ch) && Holdable(ch, Published(ch), arrivals, limit)
    modifies Repr(ch)
    ensures Drained(ch, old(Published(ch)), old(Count(ch)), start, framed)
    ensures Holdable(ch, Published(ch), rest, limit) && (arrivals == [] ==> Published(ch) == old(Published(ch)))
    ensures Count(ch) == old(Count(ch)) + n
    ensures n > 0 ==> |framed| < RELAY_BUF_SIZE + FRAME_HEADER_LEN + |Published(ch)[Count(ch) - 1].payload|
    ensures |framed| >= RELAY_BUF_SIZE || Count(ch) == |Published(ch)|
    ensures |start| < RELAY_BUF_SIZE && old(Count(ch)) < |old(Published(ch))| ==> n > 0
  {
    hide Honest, Between, Published, Count, Holdable;
    ghost var was, from := Published(ch), Count(ch);
    DrainedStart(ch, start);
    framed, n, rest := start, 0, arrivals;
    while |framed| < RELAY_BUF_SIZE
      invariant Drained(ch, was, from, start, framed) && Holdable(ch, Published(ch), rest, limit)
      invariant arrivals == [] ==> Published(ch) == was && rest == []
      invariant Count(ch) == from + n && (n == 0 ==> framed == start)
      invariant n > 0 ==> |framed| < RELAY_BUF_SIZE + FRAME_HEADER_LEN + |Published(ch)[Count(ch) - 1].payload|
      decreases RELAY_BUF_SIZE - |framed|
    {
      rest := ArriveDuring(ch, rest, was, from, start, framed, limit);
      var more;
      more, framed := TakeDuring(ch, framed, was, from, start);
      if !more { break; }
      n := n + 1;
    }
  }

  /** At most `count` writes were added to a log, none empty and none longer than `bound`. */
  ghost predicate Logged(was: seq<seq<byte>>, now: seq<seq<byte>>, count: nat, bound: int) {
    && was <= now && |now| <= |was| + count
    && forall i :: |was| <= i < |now| ==> 0 < |now[i]| <= bound
  }

  /** Flush a coalesced batch, if there is one. */
  method Flush(up: Upstream, framed: seq<byte>) returns (ok: bool)
    modifies up
    ensures ok ==> up.wire == old(up.wire) + framed
    ensures !ok ==> exists n | 0 <= n <= |framed| :: up.wire == old(up.wire) + framed[..n]
    ensures old(up.wire) <= up.wire
    ensures Reliable(old(up.fates)) ==> ok && Reliable(up.fates)
    ensures Logged(old(up.writes), up.writes, if framed == [] then 0 else 1, |framed|)
  {
    hide Reliable;
    ok := true;
    if framed != [] {
      ok := up.WriteAll(framed);
    } else {
      assert up.wire + framed == up.wire;
    }
  }

  /** A write cut short leaves a prefix of everything published. */
  lemma CutShort(fs: seq<Frame>, from: nat, c: nat, wire: seq<byte>, up: seq<byte>, part: seq<byte>, n: nat)
    requires from <= c <= |fs| && up + part == wire + Between(fs, from, c) && n <= |part|
    ensures up + part[..n] <= wire + Between(fs, from, |fs|)
  {
    hide Between;
    BetweenGrows(fs, from, c, |fs|);
    var rest := Between(fs, c, |fs|);
    assert wire + Between(fs, from, |fs|) == (up + part) + rest;
    assert up + part[..n] == ((up + part) + rest)[..|up| + n];
  }

  /** Flush what was coalesced, then write the oldest frame from its slot and release it. */
  method WriteDirect(ch: Channel, up: Upstream, framed: seq<byte>, frame: seq<byte>, ghost was: seq<Frame>,
                     ghost from: nat, ghost wire: seq<byte>)
    returns (ok: bool)
    requires ch.SlotChannel? && up !in Repr(ch) && Drained(ch, was, from, wire, up.wire + framed)
    requires Count(ch) < |Published(ch)| && frame == Encode(Published(ch)[Count(ch)])
    modifies Repr(ch), up
    ensures Honest(ch) && Published(ch) == old(Published(ch))
    ensures Count(ch) == old(Count(ch)) + if ok then 1 else 0
    ensures ok ==> Drained(ch, was, from, wire, up.wire + [])
    ensures !ok ==> up.wire <= wire + Between(Published(ch), from, |Published(ch)|)
    ensures old(up.wire) <= up.wire
    ensures Reliable(old(up.fates)) ==> ok && Reliable(up.fates)
    ensures Logged(old(up.writes), up.writes, 2, Max(|framed|, |frame|))
  {
    hide Honest, Encode, Reliable, Published, Count, Between;
    ghost var fs, c, before := Published(ch), Count(ch), up.wire;
    ok := Flush(up, framed);
    if !ok {
      ghost var n :| 0 <= n <= |framed| && up.wire == before + framed[..n];
      CutShort(fs, from, c, wire, before, framed, n);
      return;
    }
    DrainedMore(fs, from, c, wire, before + framed);
    before := up.wire;
    ok := up.WriteAll(frame);
    if !ok {
      ghost var n :| 0 <= n <= |frame| && up.wire == before + frame[..n];
      CutShort(fs, from, c + 1, wire, before, frame, n);
      return;
    }
    AdvanceSlot(ch);
    assert up.wire + [] == up.wire;
  }

  /** Append the oldest frame to the batch and release its slot. */
  method CoalesceSlot(ch: Channel, framed: seq<byte>, frame: seq<byte>, ghost was: seq<Frame>, ghost from: nat,
                      ghost wire: seq<byte>, ghost up: seq<byte>)
    returns (framed': seq<byte>)
    requires ch.SlotChannel? && Drained(ch, was, from, wire, up + framed)
    requires Count(ch) < |Published(ch)| && frame == Encode(Published(ch)[Count(ch)])
    modifies Repr(ch)
    ensures Drained(ch, was, from, wire, up + framed') && Published(ch) == old(Published(ch))
    ensures Count(ch) == old(Count(ch)) + 1 && |framed'| == |framed| + |frame| > |framed|
  {
    hide Honest, Encode, Published, Count, Between;
    DrainedMore(Published(ch), from, Count(ch), wire, up + framed);
    assert (up + framed) + frame == up + (framed + frame);
    framed' := framed + frame;
    AdvanceSlot(ch);
  }

  lemma DrainedFacts(ch: Channel, was: seq<Frame>, from: nat, start: seq<byte>, out: seq<byte>)
    requires Drained(ch, was, from, start, out)
    ensures Honest(ch) && was <= Published(ch) && from <= Count(ch) <= |Published(ch)|
    ensures out == start + Between(Published(ch), from, Count(ch))
  {
  }

  /** Partway through the loop of a zero-copy drain: everything taken is on the wire or in `framed`,
      and the limits have let every frame through so far. */
  ghost predicate Collecting(ch: Channel, was: seq<Frame>, from: nat, wire: seq<byte>, up: seq<byte>,
                             framed: seq<byte>, direct: nat)
    reads Repr(ch)
  {
    && Drained(ch, was, from, wire, up + framed) && wire <= up
    && OnPlan(Published(ch), from, Count(ch), |framed|, direct)
    && |framed| <= RELAY_BUF_SIZE && direct <= ZC_MAX_DIRECT
    && (direct == ZC_MAX_DIRECT ==> framed == [])
  }

  lemma CollectingStart(ch: Channel, wire: seq<byte>)
    requires Honest(ch)
    ensures Collecting(ch, Published(ch), Count(ch), wire, wire, [], 0)
  {
    hide Honest, Published, Count, Between, OnPlan;
    DrainedStart(ch, wire);
    OnPlanStart(Published(ch), Count(ch));
    assert wire + [] == wire;
  }

  lemma CollectingFacts(ch: Channel, was: seq<Frame>, from: nat, wire: seq<byte>, up: seq<byte>, framed: seq<byte>, direct: nat)
    requires Collecting(ch, was, from, wire, up, framed, direct)
    ensures Honest(ch) && was <= Published(ch) && from <= Count(ch) <= |Published(ch)|
    ensures Drained(ch, was, from, wire, up + framed) && wire <= up
    ensures |framed| <= RELAY_BUF_SIZE && direct <= ZC_MAX_DIRECT && (direct == ZC_MAX_DIRECT ==> framed == [])
    ensures OnPlan(Published(ch), from, Count(ch), |framed|, direct)
  {
  }

  lemma CollectingMade(ch: Channel, was: seq<Frame>, from: nat, wire: seq<byte>, up: seq<byte>, direct: nat)
    requires Drained(ch, was, from, wire, up + []) && wire <= up && direct <= ZC_MAX_DIRECT
    requires OnPlan(Published(ch), from, Count(ch), 0, direct)
    ensures Collecting(ch, was, from, wire, up, [], direct)
  {
    hide Honest, Published, Count, Between, OnPlan;
  }

  method ArriveCollecting(ch: Channel, arrivals: seq<Batch>, ghost was: seq<Frame>, ghost from: nat, ghost wire: seq<byte>,
                          ghost up: seq<byte>, ghost framed: seq<byte>, ghost direct: nat, ghost limit: nat)
    returns (rest: seq<Batch>)
    requires Collecting(ch, was, from, wire, up, framed, direct) && Holdable(ch, Published(ch), arrivals, limit)
    modifies Repr(ch)
    ensures Collecting(ch, was, from, wire, up, framed, direct) && Holdable(ch, Published(ch), rest, limit)
    ensures arrivals == [] ==> rest == [] && Published(ch) == old(Published(ch))
  {
    hide Honest, Published, Count, Between, OnPlan, Holdable, Drained;
    ghost var fs := Published(ch);
    rest := ArriveDuring(ch, arrivals, was, from, wire, up + framed, limit);
    OnPlanGrows(fs, Published(ch), from, Count(ch), |framed|, direct);
  }

  lemma PrefixTrans(a: seq<byte>, b: seq<byte>, c: seq<byte>)
    requires a <= b <= c
    ensures a <= c
  {
  }

  /** A large frame: flush, write it from its slot, release it. */
  method DirectRound(ch: Channel, up: Upstream, framed: seq<byte>, frame: seq<byte>, ghost direct: nat,
                     ghost was: seq<Frame>, ghost from: nat, ghost wire: seq<byte>)
    returns (ok: bool)
    requires ch.SlotChannel? && up !in Repr(ch) && direct < ZC_MAX_DIRECT
    requires Collecting(ch, was, from, wire, up.wire, framed, direct)
    requires Count(ch) < |Published(ch)| && frame == Encode(Published(ch)[Count(ch)]) && |frame| >= ZC_DIRECT_THRESHOLD
    modifies Repr(ch), up
    ensures Honest(ch) && Published(ch) == old(Published(ch)) && was <= Published(ch)
    ensures from <= Count(ch) <= |Published(ch)| && wire <= up.wire
    ensures ok ==> Collecting(ch, was, from, wire, up.wire, [], direct + 1)
    ensures !ok ==> up.wire <= wire + Between(Published(ch), from, |Published(ch)|)
    ensures Reliable(old(up.fates)) ==> ok && Reliable(up.fates)
    ensures Logged(old(up.writes), up.writes, 2, Max(|framed|, |frame|))
  {
    hide Honest, Encode, Published, Count, Between, OnPlan, Drained, Reliable, Logged, Collecting, Repr;
    CollectingFacts(ch, was, from, wire, up.wire, framed, direct);
    PlanStep(Published(ch), from, Count(ch), |framed|, direct);
    ghost var before := up.wire;
    ok := WriteDirect(ch, up, framed, frame, was, from, wire);
    PrefixTrans(wire, before, up.wire);
    if ok { CollectingMade(ch, was, from, wire, up.wire, direct + 1); }
  }

  /** A small frame that fits the buffer: copy it there, release its slot. */
  method CoalesceRound(ch: Channel, framed: seq<byte>, frame: seq<byte>, ghost direct: nat,
                       ghost was: seq<Frame>, ghost from: nat, ghost wire: seq<byte>, ghost up: seq<byte>)
    returns (framed': seq<byte>)
    requires ch.SlotChannel? && direct < ZC_MAX_DIRECT && Collecting(ch, was, from, wire, up, framed, direct)
    requires Count(ch) < |Published(ch)| && frame == Encode(Published(ch)[Count(ch)])
    requires |frame| < ZC_DIRECT_THRESHOLD && |framed| + |frame| <= RELAY_BUF_SIZE
    modifies Repr(ch)
    ensures Collecting(ch, was, from, wire, up, framed', direct) && Published(ch) == old(Published(ch))
    ensures |framed'| > |framed|
  {
    hide Honest, Encode, Published, Count, Between, OnPlan, Drained;
    PlanStep(Published(ch), from, Count(ch), |framed|, direct);
    framed' := CoalesceSlot(ch, framed, frame, was, from, wire, up);
  }

  /** The loop of a zero-copy drain; what is still in `framed` at its end remains to be flushed. */
  method CollectZeroCopy(ch: Channel, up: Upstream, arrivals: seq<Batch>, ghost bound: int, ghost limit: nat)
    returns (ok: bool, framed: seq<byte>, rest: seq<Batch>)
    requires Honest(ch) && ch.SlotChannel? && Holdable(ch, Published(ch), arrivals, limit) && up !in Repr(ch)
    requires bound == Max(RELAY_BUF_SIZE, FRAME_HEADER_LEN + MaxFrame(ch))
    modifies Repr(ch), up
    ensures Honest(ch) && Holdable(ch, Published(ch), rest, limit) && old(Published(ch)) <= Published(ch)
    ensures arrivals == [] ==> Published(ch) == old(Published(ch))
    ensures old(Count(ch)) <= Count(ch) <= |Published(ch)|
    ensures ok ==> Drained(ch, old(Published(ch)), old(Count(ch)), old(up.wire), up.wire + framed)
    ensures !ok ==> up.wire <= old(up.wire) + Between(Published(ch), old(Count(ch)), |Published(ch)|)
    ensures old(up.wire) <= up.wire
    ensures ok ==> Takes(Published(ch)[old(Count(ch))..], Count(ch) - old(Count(ch)))
    ensures |framed| <= RELAY_BUF_SIZE
    ensures Logged(old(up.writes), up.writes, if framed == [] then 2 * ZC_MAX_DIRECT else 2 * ZC_MAX_DIRECT - 2, bound)
    ensures Reliable(old(up.fates)) ==> ok && Reliable(up.fates)
  {
    hide Honest, Encode, Holdable, Published, Count, Reliable, Logged, MaxFrame, Between, Drained, OnPlan, Takes, Collecting;
    ghost var was, from, wire := Published(ch), Count(ch), up.wire;
    CollectingStart(ch, wire);
    LoggedNone(up.writes, bound);
    ok, framed, rest := true, [], arrivals;
    var direct := 0;
    while direct < ZC_MAX_DIRECT
      invariant Collecting(ch, was, from, wire, up.wire, framed, direct) && Holdable(ch, Published(ch), rest, limit)
      invariant |framed| <= RELAY_BUF_SIZE && direct <= ZC_MAX_DIRECT
      invariant arrivals == [] ==> Published(ch) == was && rest == []
      invariant Logged(old(up.writes), up.writes, 2 * direct, bound)
      invariant Reliable(old(up.fates)) ==> Reliable(up.fates)
      decreases ZC_MAX_DIRECT - direct, RELAY_BUF_SIZE - |framed|
    {
      rest := ArriveCollecting(ch, rest, was, from, wire, up.wire, framed, direct, limit);
      CollectingFacts(ch, was, from, wire, up.wire, framed, direct);
      var o := PeekSlot(ch);
      if o.None? { break; }
      var frame := o.value;
      FrameWithin(ch, Count(ch));
      if |frame| >= ZC_DIRECT_THRESHOLD {
        ghost var log := up.writes;
        ok := DirectRound(ch, up, framed, frame, direct, was, from, wire);
        LoggedAfter(old(up.writes), log, up.writes, 2 * direct, 2, Max(|framed|, |frame|), bound);
        framed := [];
        direct := direct + 1;
        if !ok { LoggedWithin(old(up.writes), up.writes, 2 * direct, 2 * ZC_MAX_DIRECT, bound); return; }
      } else {
        if |framed| + |frame| > RELAY_BUF_SIZE { break; }
        framed := CoalesceRound(ch, framed, frame, direct, was, from, wire, up.wire);
      }
      CollectingFacts(ch, was, from, wire, up.wire, framed, direct);
    }
    CollectingFacts(ch, was, from, wire, up.wire, framed, direct);
    PlanEnds(Published(ch), from, Count(ch), |framed|, direct);
    LoggedWithin(old(up.writes), up.writes, 2 * direct, if framed == [] then 2 * ZC_MAX_DIRECT else 2 * ZC_MAX_DIRECT - 2, bound);
  }

  /** One bounded zero-copy drain: large frames straight from their slots, small ones coalesced and
      flushed before any direct write, so the wire carries exactly the encodings of the frames
      removed, in ring order. Every write is one frame or fits the buffer, and there are at most
      128 of them. It takes as many frames as its limits allow. */
  method DrainZeroCopy(ch: Channel, up: Upstream, arrivals: seq<Batch>, ghost limit: nat)
    returns (ok: bool, rest: seq<Batch>)
    requires Honest(ch) && ch.SlotChannel? && Holdable(ch, Published(ch), arrivals, limit) && up !in Repr(ch)
    modifies Repr(ch), up
    ensures Honest(ch) && Holdable(ch, Published(ch), rest, limit) && old(Published(ch)) <= Published(ch)
    ensures arrivals == [] ==> Published(ch) == old(Published(ch))
    ensures old(Count(ch)) <= Count(ch) <= |Published(ch)|
    ensures ok ==> Drained(ch, old(Published(ch)), old(Count(ch)), old(up.wire), up.wire)
    ensures !ok ==> up.wire <= old(up.wire) + Between(Published(ch), old(Count(ch)), |Published(ch)|)
    ensures old(up.wire) <= up.wire
    ensures ok && old(Count(ch)) < |old(Published(ch))| ==> Count(ch) > old(Count(ch))
    ensures ok ==> Takes(Published(ch)[old(Count(ch))..], Count(ch) - old(Count(ch)))
    ensures Logged(old(up.writes), up.writes, 2 * ZC_MAX_DIRECT, Max(RELAY_BUF_SIZE, FRAME_HEADER_LEN + MaxFrame(ch)))
    ensures Reliable(old(up.fates)) ==> ok && Reliable(up.fates)
  {
    hide Honest, Encode, Holdable, Published, Count, Reliable, Logged, MaxFrame, Between, Drained;
    ghost var was, from, wire := Published(ch), Count(ch), up.wire;
    ghost var bound := Max(RELAY_BUF_SIZE, FRAME_HEADER_LEN + MaxFrame(ch));
    var framed;
    ok, framed, rest := CollectZeroCopy(ch, up, arrivals, bound, limit);
    if ok && from < |Published(ch)| { TakesSome(Published(ch)[from..], Count(ch) - from); }
    ghost var before, log := up.wire, up.writes;
    if !ok {
      LoggedWithin(old(up.writes), log, if framed == [] then 2 * ZC_MAX_DIRECT else 2 * ZC_MAX_DIRECT - 2,
                   2 * ZC_MAX_DIRECT, bound);
      return;
    }
    DrainedFacts(ch, was, from, wire, before + framed);
    ok := Flush(up, framed);
    if framed == [] {
      LoggedAfter(old(up.writes), log, up.writes, 2 * ZC_MAX_DIRECT, 0, |framed|, bound);
    } else {
      LoggedAfter(old(up.writes), log, up.writes, 2 * ZC_MAX_DIRECT - 2, 1, |framed|, bound);
      LoggedWithin(old(up.writes), up.writes, 2 * ZC_MAX_DIRECT - 1, 2 * ZC_MAX_DIRECT, bound);
    }
    if !ok {
      ghost var n :| 0 <= n <= |framed| && up.wire == before + framed[..n];
      CutShort(Published(ch), from, Count(ch), wire, before, framed, n);
    }
  }

  lemma FrameWithin(ch: Channel, c: nat)
    requires Honest(ch) && c < |Published(ch)|
    ensures |Encode(Published(ch)[c])| <= FRAME_HEADER_LEN + MaxFrame(ch)
  {
    hide Honest, Encode;
    HonestBounds(ch);
    assert Published(ch)[c] in Published(ch);
  }

  lemma LoggedNone(a: seq<seq<byte>>, bound: int)
    ensures Logged(a, a, 0, bound)
  {
  }

  /** A large frame empties the buffer, a small one joins it. */
  lemma PlanStep(fs: seq<Frame>, from: nat, c: nat, batch: nat, direct: nat)
    requires OnPlan(fs, from, c, batch, direct) && c < |fs| && direct < ZC_MAX_DIRECT
    ensures |Encode(fs[c])| >= ZC_DIRECT_THRESHOLD ==> OnPlan(fs, from, c + 1, 0, direct + 1)
    ensures |Encode(fs[c])| < ZC_DIRECT_THRESHOLD && batch + |Encode(fs[c])| <= RELAY_BUF_SIZE ==>
              OnPlan(fs, from, c + 1, batch + |Encode(fs[c])|, direct)
  {
    hide Encode;
    OnPlanNext(fs, from, c, batch, direct);
  }

  lemma PlanEnds(fs: seq<Frame>, from: nat, c: nat, batch: nat, direct: nat)
    requires OnPlan(fs, from, c, batch, direct)
    requires c < |fs| && direct < ZC_MAX_DIRECT ==>
               |Encode(fs[c])| < ZC_DIRECT_THRESHOLD && batch + |Encode(fs[c])| > RELAY_BUF_SIZE
    ensures from <= c <= |fs| && Takes(fs[from..], c - from)
  {
    hide Encode, Takes;
    OnPlanEnds(fs, from, c, batch, direct);
  }

  /** A non-empty ring always has a frame the drain takes. */
  lemma TakesSome(w: seq<Frame>, n: nat)
    requires Takes(w, n) && w != []
    ensures n > 0
  {
    assert w[..1][..0] == [] && w[..0] == [];
  }

  lemma LoggedWithin(a: seq<seq<byte>>, b: seq<seq<byte>>, m: nat, n: nat, bound: int)
    requires Logged(a, b, m, bound) && m <= n
    ensures Logged(a, b, n, bound)
  {
  }

  /** Further writes after the first `m`, all within the drain's allowance. */
  lemma LoggedAfter(a: seq<seq<byte>>, b: seq<seq<byte>>, c: seq<seq<byte>>, m: nat, n: nat, size: int, bound: int)
    requires Logged(a, b, m, bound) && Logged(b, c, n, size) && size <= bound
    ensures Logged(a, c, m + n, bound)
  {
  }

  /** Drain until the ring is empty: the wire carries the encodings of everything that was waiting,
      whichever ring kind it is and whichever way it is drained. */
  method DrainAll(ch: Channel, up: Upstream, zeroCopy: bool, ghost limit: nat) returns (ok: bool)
    requires Honest(ch) && Holdable(ch, Published(ch), [], limit) && up !in Repr(ch)
    modifies Repr(ch), up
    ensures Honest(ch) && Published(ch) == old(Published(ch)) && old(Count(ch)) <= Count(ch) <= |Published(ch)|
    ensures ok ==> Count(ch) == |Published(ch)|
    ensures ok ==> up.wire == old(up.wire) + EncodeAll(Published(ch)[old(Count(ch))..])
    ensures Reliable(old(up.fates)) ==> ok && Reliable(up.fates)
  {
    hide Honest, Encode, EncodeAll, Holdable, Published, Count, Reliable, Between, Logged, MaxFrame;
    ghost var fs, from, wire := Published(ch), Count(ch), up.wire;
    DrainedStart(ch, wire);
    ok := true;
    var rest;
    while true
      invariant Drained(ch, fs, from, wire, up.wire) && Published(ch) == fs
      invariant Holdable(ch, Published(ch), [], limit)
      invariant Reliable(old(up.fates)) ==> Reliable(up.fates)
      decreases |Published(ch)| - Count(ch)
    {
      var empty := IsEmpty(ch);
      if empty { break; }
      ghost var c := Count(ch);
      ok, rest := DrainOnce(ch, up, zeroCopy, [], limit);
      if !ok { return; }
      BetweenGrows(fs, from, c, Count(ch));
      assert (wire + Between(fs, from, c)) + Between(fs, c, Count(ch)) == wire + (Between(fs, from, c) + Between(fs, c, Count(ch)));
    }
    assert fs[from..|fs|] == fs[from..];
    BetweenIs(fs, from, |fs|);
  }

  lemma BetweenIs(fs: seq<Frame>, from: nat, to: nat)
    requires from <= to <= |fs|
    ensures Between(fs, from, to) == EncodeAll(fs[from..to])
  {
  }

  /** One pass of the relay over the client-to-gateway ring: the zero-copy drain for a slot ring on
      a plaintext upstream, otherwise one coalesced write. */
  method DrainOnce(ch: Channel, up: Upstream, plain: bool, arrivals: seq<Batch>, ghost limit: nat)
    returns (ok: bool, rest: seq<Batch>)
    requires Honest(ch) && Holdable(ch, Published(ch), arrivals, limit) && up !in Repr(ch)
    modifies Repr(ch), up
    ensures Honest(ch) && Holdable(ch, Published(ch), rest, limit) && old(Published(ch)) <= Published(ch)
    ensures arrivals == [] ==> Published(ch) == old(Published(ch))
    ensures old(Count(ch)) <= Count(ch) <= |Published(ch)|
    ensures ok ==> Drained(ch, old(Published(ch)), old(Count(ch)), old(up.wire), up.wire)
    ensures !ok ==> up.wire <= old(up.wire) + Between(Published(ch), old(Count(ch)), |Published(ch)|)
    ensures old(up.wire) <= up.wire
    ensures ok && old(Count(ch)) < |old(Published(ch))| ==> Count(ch) > old(Count(ch))
    ensures Reliable(old(up.fates)) ==> ok && Reliable(up.fates)
  {
    hide Honest, Encode, EncodeAll, Holdable, Published, Count, Reliable, Between, Logged, MaxFrame;
    if ch.SlotChannel? && plain {
      ok, rest := DrainZeroCopy(ch, up, arrivals, limit);
    } else {
      ghost var from, wire := Count(ch), up.wire;
      var framed, n;
      framed, n, rest := CoalesceC2g(ch, [], arrivals, limit);
      ok := Flush(up, framed);
      assert [] + Between(Published(ch), from, Count(ch)) == framed;
      if !ok {
        ghost var k :| 0 <= k <= |framed| && up.wire == wire + framed[..k];
        CutShort(Published(ch), from, Count(ch), wire, wire, framed, k);
      }
    }
  }

  // ── Pushing into the gateway-to-client ring ──

  /** What happens while the relay backs off from a full ring. */
  datatype Backoff = Shutdown | ClientGone | Drains(k: nat)

  datatype G2cResult = PushedG2c(wasEmpty: bool) | ShutDown | Gone | PushError

  predicate Cooperative(backoffs: seq<Backoff>) { forall b :: b in backoffs ==> b.Drains? }

  /** The client takes up to `k` frames. */
  method ClientTakes(ch: Channel, k: nat)
    requires Honest(ch)
    modifies Repr(ch)
    ensures Honest(ch) && Published(ch) == old(Published(ch))
    ensures Count(ch) == Min(old(Count(ch)) + k, |Published(ch)|)
  {
    hide Honest, Published, Count;
    HonestBounds(ch);
    for i := 0 to k
      invariant Honest(ch) && Published(ch) == old(Published(ch))
      invariant Count(ch) == Min(old(Count(ch)) + i, |Published(ch)|)
    {
      var _ := Pop(ch);
    }
  }

  /** Push one frame, backing off while the ring is full. A full ring loses nothing and is never
      overwritten; the push fails only on shutdown, when the client is gone, or for a frame that
      can never fit. A client that is not scripted to do otherwise takes a frame per backoff. */
  method PushG2c(ch: Channel, id: u32, payload: seq<byte>, backoffs: seq<Backoff>)
    returns (r: G2cResult, rest: seq<Backoff>)
    requires Honest(ch) && Lasts(ch, |EncodeAll(Published(ch))| + FRAME_HEADER_LEN + |payload|)
    modifies Repr(ch)
    ensures Honest(ch) && old(Count(ch)) <= Count(ch) <= |old(Published(ch))|
    ensures Published(ch) == if r.PushedG2c? then old(Published(ch)) + [Frame(id, payload)] else old(Published(ch))
    ensures r.PushError? <==> |payload| > MaxFrame(ch)
    ensures r.PushedG2c? ==> (r.wasEmpty <==> ch.ByteChannel? || Count(ch) == |old(Published(ch))|)
    ensures HasRoom(ch, old(Published(ch)), old(Count(ch)), |payload|) && !r.PushError? ==>
              r.PushedG2c? && Count(ch) == old(Count(ch))
    ensures r.ShutDown? ==> Shutdown in backoffs
    ensures r.Gone? ==> ClientGone in backoffs
    ensures Cooperative(backoffs) ==> Cooperative(rest)
  {
    hide Honest, Lasts, EncodeAll, Published, Count, MaxFrame, HasRoom;
    rest := backoffs;
    HonestBounds(ch);
    while true
      invariant Honest(ch) && Published(ch) == old(Published(ch))
      invariant old(Count(ch)) <= Count(ch) <= |Published(ch)|
      invariant forall b :: b in rest ==> b in backoffs
      invariant Count(ch) == old(Count(ch)) || !HasRoom(ch, old(Published(ch)), old(Count(ch)), |payload|)
      decreases |Published(ch)| - Count(ch) + |rest|
    {
      var a := Push(ch, id, payload);
      match a {
        case Sent(wasEmpty) => return PushedG2c(wasEmpty), rest;
        case TooLong => return PushError, rest;
        case Corrupted => return PushError, rest;
        case NoRoom =>
      }
      if rest == [] {
        ClientTakes(ch, 1);
      } else {
        var b := rest[0];
        assert b in rest;
        rest := rest[1..];
        match b {
          case Shutdown => return ShutDown, rest;
          case ClientGone => return Gone, rest;
          case Drains(k) => ClientTakes(ch, k);
        }
      }
    }
  }
}
