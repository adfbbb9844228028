/** Two gateways end to end: a client pushes into one gateway's ring, the relay drains it into a
    byte stream, the stream is cut into arbitrary reads, and the peer's relay re-frames it into
    another ring from which a client receives. Steps may be taken in any order, any number of
    times; every step keeps the invariant, so what it says holds in every run. */
module EndToEnd {
  import opened Words
  import opened Options
  import opened Frames
  import opened Channels
  import opened DrainPlan
  import opened Relay
  import Decoder
  import UdsSend

  const READ_BOUND: nat := Decoder.COMPACT_ABOVE + (FRAME_HEADER_LEN - 1) + DEFAULT_MAX_FRAME_LEN + RELAY_BUF_SIZE

  /** Frames whose encodings start a stream of frames are the first of those frames. */
  lemma PrefixFrames(gs: seq<Frame>, rest: seq<byte>, fs: seq<Frame>)
    requires EncodeAll(gs) + rest <= EncodeAll(fs)
    requires AllFit(gs, U32_SPAN) && AllFit(fs, U32_SPAN)
    ensures gs <= fs
  {
    hide EncodeAll, Decode;
    var t := EncodeAll(fs)[|EncodeAll(gs)|..];
    assert EncodeAll(fs) == EncodeAll(gs) + t;
    DecodeEncoded(gs, t, U32_SPAN);
    DecodeEncoded(fs, [], U32_SPAN);
    DecodeUnfold([], U32_SPAN);
    assert EncodeAll(fs) + [] == EncodeAll(fs) && fs + [] == fs;
  }

  /** A prefix of the wire form of some frames decodes no further than those frames. */
  lemma PartwayPrefix(stream: seq<byte>, gs: seq<Frame>, pending: seq<byte>, fs: seq<Frame>)
    requires stream <= EncodeAll(fs) && AllFit(fs, U32_SPAN)
    requires Decoder.Partway(stream, DEFAULT_MAX_FRAME_LEN, gs, pending)
    ensures gs <= fs
  {
    hide EncodeAll;
    PrefixFrames(gs, pending, fs);
  }

  /** With every byte of the stream read and no complete frame pending, the frames are all there. */
  lemma PartwayWhole(gs: seq<Frame>, pending: seq<byte>, fs: seq<Frame>)
    requires Decoder.Partway(EncodeAll(fs), DEFAULT_MAX_FRAME_LEN, gs, pending)
    requires AllFit(fs, DEFAULT_MAX_FRAME_LEN) && !ParseOne(pending, DEFAULT_MAX_FRAME_LEN).Got?
    ensures gs == fs && pending == []
  {
    hide EncodeAll, ParseOne, Decode;
    Decoder.PartwayDecodes(EncodeAll(fs), DEFAULT_MAX_FRAME_LEN, gs, pending);
    DecodeEncoded(fs, [], DEFAULT_MAX_FRAME_LEN);
    DecodeUnfold([], DEFAULT_MAX_FRAME_LEN);
    ShortIsNeedMore(DEFAULT_MAX_FRAME_LEN);
    assert EncodeAll(fs) + [] == EncodeAll(fs) && fs + [] == fs;
  }

  lemma ShortIsNeedMore(maxLen: nat)
    ensures ParseOne([], maxLen).NeedMore?
  {
  }

  /** An oversized length met in a stream of frames belongs to one of the frames. */
  lemma OversizedFrame(stream: seq<byte>, gs: seq<Frame>, pending: seq<byte>, fs: seq<Frame>)
    requires stream <= EncodeAll(fs) && AllFit(fs, U32_SPAN)
    requires Decoder.Partway(stream, DEFAULT_MAX_FRAME_LEN, gs, pending)
    requires ParseOne(pending, DEFAULT_MAX_FRAME_LEN).TooLarge?
    ensures !AllFit(fs, DEFAULT_MAX_FRAME_LEN)
  {
    hide EncodeAll, ParseOne, Decode;
    if AllFit(fs, DEFAULT_MAX_FRAME_LEN) {
      var t := EncodeAll(fs)[|stream|..];
      assert EncodeAll(fs) == stream + t;
      Decoder.PartwayFeed(stream, DEFAULT_MAX_FRAME_LEN, gs, pending, t);
      ParseStable(pending, t, DEFAULT_MAX_FRAME_LEN);
      PartwayWhole(gs, pending + t, fs);
      ShortIsNeedMore(DEFAULT_MAX_FRAME_LEN);
    }
  }

  /** `n` is how many frames of `fs` are whole in the stream. */
  ghost predicate WholeIn(fs: seq<Frame>, stream: seq<byte>, n: nat) {
    && n <= |fs|
    && forall k :: 0 <= k <= |fs| ==> (EncodeAll(fs[..k]) <= stream <==> k <= n)
  }

  /** With the stream read to its end, wherever that cuts it, the frames whole in it are there. */
  lemma PartwayWholeIn(stream: seq<byte>, gs: seq<Frame>, pending: seq<byte>, fs: seq<Frame>)
    requires stream <= EncodeAll(fs) && AllFit(fs, DEFAULT_MAX_FRAME_LEN)
    requires Decoder.Partway(stream, DEFAULT_MAX_FRAME_LEN, gs, pending) && gs <= fs
    requires !ParseOne(pending, DEFAULT_MAX_FRAME_LEN).Got?
    ensures WholeIn(fs, stream, |gs|)
  {
    hide EncodeAll, ParseOne, Decode;
    Decoder.PartwayDecodes(stream, DEFAULT_MAX_FRAME_LEN, gs, pending);
    forall k | 0 <= k <= |fs| ensures EncodeAll(fs[..k]) <= stream <==> k <= |gs| {
      if EncodeAll(fs[..k]) <= stream {
        var t := stream[|EncodeAll(fs[..k])|..];
        assert stream == EncodeAll(fs[..k]) + t;
        DecodeEncoded(fs[..k], t, DEFAULT_MAX_FRAME_LEN);
      }
      if k <= |gs| {
        assert gs == fs[..k] + gs[k..];
        EncodeAllConcat(fs[..k], gs[k..]);
      }
    }
  }

  /** A wire that continued a frame boundary still spells frames of the ring. */
  lemma StillSpells(was: seq<Frame>, fs: seq<Frame>, c: nat, wire: seq<byte>, wire': seq<byte>)
    requires was <= fs && c <= |was| && wire == Between(was, 0, c)
    requires wire' <= wire + Between(fs, c, |fs|)
    ensures wire' <= EncodeAll(fs)
  {
    hide EncodeAll;
    BetweenSame(was, fs, 0, c);
    BetweenGrows(fs, 0, c, |fs|);
    assert fs[0..|fs|] == fs;
  }

  lemma StillPrefix(wire: seq<byte>, was: seq<Frame>, more: seq<Frame>)
    requires wire <= EncodeAll(was)
    ensures wire <= EncodeAll(was + more)
  {
    hide EncodeAll;
    EncodeAllConcat(was, more);
  }

  /** Every frame is within the decoder's limit and fits the receiving ring. */
  ghost predicate Passes(fs: seq<Frame>, maxFrame: int) {
    forall f :: f in fs ==> |f.payload| <= DEFAULT_MAX_FRAME_LEN && |f.payload| <= maxFrame
  }

  /** The next frame of the stream still fits the ring's exact range. */
  lemma NextLasts(ch: Channel, gs: seq<Frame>, f: Frame, fs: seq<Frame>, limit: nat)
    requires gs + [f] <= fs && |EncodeAll(fs)| <= limit && Lasts(ch, limit)
    ensures Lasts(ch, |EncodeAll(gs)| + FRAME_HEADER_LEN + |f.payload|)
  {
    hide Lasts, EncodeAll, Encode;
    EncodeAllSnoc(gs, f);
    EncodeAllConcat(gs + [f], fs[|gs| + 1..]);
    assert fs == (gs + [f]) + fs[|gs| + 1..];
    LastsDown(ch, limit, |EncodeAll(gs)| + FRAME_HEADER_LEN + |f.payload|);
  }

  lemma TooLongFor(fs: seq<Frame>, maxFrame: int)
    requires !AllFit(fs, DEFAULT_MAX_FRAME_LEN)
    ensures !Passes(fs, maxFrame)
  {
  }

  /** A ring being filled from a stream: its frames are what the stream has decoded to so far. */
  ghost predicate Filling(ch: Channel, stream: seq<byte>, fs: seq<Frame>, pending: seq<byte>)
    reads Repr(ch)
  {
    && Honest(ch) && Published(ch) <= fs && Count(ch) <= |Published(ch)|
    && Decoder.Partway(stream, DEFAULT_MAX_FRAME_LEN, Published(ch), pending)
  }

  /** Push the frame the decoder just returned. */
  method PushNext(ch: Channel, f: Frame, backoffs: seq<Backoff>, ghost stream: seq<byte>, ghost fs: seq<Frame>,
                  ghost pending: seq<byte>, ghost limit: nat)
    returns (ok: bool, rest: seq<Backoff>)
    requires Filling(ch, stream, fs, pending) && ParseOne(pending, DEFAULT_MAX_FRAME_LEN) == Got(f)
    requires stream <= EncodeAll(fs) && AllFit(fs, U32_SPAN) && |EncodeAll(fs)| <= limit && Lasts(ch, limit)
    modifies Repr(ch)
    ensures Honest(ch) && old(Published(ch)) <= Published(ch) <= fs && old(Count(ch)) <= Count(ch) <= |Published(ch)|
    ensures ok ==> Filling(ch, stream, fs, After(pending, f))
    ensures Cooperative(backoffs) ==> Cooperative(rest)
    ensures Passes(fs, MaxFrame(ch)) && Cooperative(backoffs) ==> ok
  {
    hide Honest, Lasts, EncodeAll, Published, Count, ParseOne, Decoder.Partway, MaxFrame, HasRoom;
    ghost var gs := Published(ch);
    Decoder.PartwayNext(stream, DEFAULT_MAX_FRAME_LEN, gs, pending);
    PartwayPrefix(stream, gs + [f], After(pending, f), fs);
    NextLasts(ch, gs, f, fs, limit);
    assert f == fs[|gs|];
    var r;
    r, rest := PushG2c(ch, f.id, f.payload, backoffs);
    ok := r.PushedG2c?;
  }

  /** The relay's inner loop: every complete frame in the decoder goes into the ring. */
  method PushFrames(dec: Decoder.FrameDecoder, ch: Channel, backoffs: seq<Backoff>, ghost stream: seq<byte>,
                    ghost fs: seq<Frame>, ghost limit: nat)
    returns (ok: bool)
    requires dec !in Repr(ch) && dec.Valid() && dec.maxLen == DEFAULT_MAX_FRAME_LEN
    requires Filling(ch, stream, fs, dec.Pending())
    requires stream <= EncodeAll(fs) && AllFit(fs, U32_SPAN) && |EncodeAll(fs)| <= limit && Lasts(ch, limit)
    modifies Repr(ch), dec
    ensures dec.Valid() && dec.buf == old(dec.buf)
    ensures Honest(ch) && old(Published(ch)) <= Published(ch) <= fs && old(Count(ch)) <= Count(ch) <= |Published(ch)|
    ensures ok ==> Filling(ch, stream, fs, dec.Pending()) && ParseOne(dec.Pending(), DEFAULT_MAX_FRAME_LEN).NeedMore?
    ensures Passes(fs, MaxFrame(ch)) && Cooperative(backoffs) ==> ok
  {
    hide Honest, Lasts, EncodeAll, Published, Count, ParseOne, Decoder.Partway, MaxFrame, Cooperative, AllFit, Passes;
    var rest := backoffs;
    while true
      invariant dec.Valid() && dec.buf == old(dec.buf)
      invariant Filling(ch, stream, fs, dec.Pending())
      invariant old(Published(ch)) <= Published(ch) && old(Count(ch)) <= Count(ch)
      invariant Cooperative(backoffs) ==> Cooperative(rest)
      decreases |dec.Pending()|
    {
      ghost var pending := dec.Pending();
      var p := dec.NextFrame();
      match p {
        case NeedMore => return true;
        case TooLarge(_) =>
          OversizedFrame(stream, Published(ch), pending, fs);
          TooLongFor(fs, MaxFrame(ch));
          return false;
        case Got(f) =>
          var more;
          more, rest := PushNext(ch, f, rest, stream, fs, pending, limit);
          if !more { return false; }
      }
    }
  }

  /** One read: feed the chunk to the drained decoder, then push every complete frame. */
  method FeedAndPush(dec: Decoder.FrameDecoder, ch: Channel, chunk: seq<byte>, backoffs: seq<Backoff>,
                     ghost stream: seq<byte>, ghost fs: seq<Frame>, ghost limit: nat)
    returns (ok: bool)
    requires dec !in Repr(ch) && dec.Valid() && dec.maxLen == DEFAULT_MAX_FRAME_LEN
    requires Filling(ch, stream, fs, dec.Pending()) && ParseOne(dec.Pending(), DEFAULT_MAX_FRAME_LEN).NeedMore?
    requires stream + chunk <= EncodeAll(fs) && AllFit(fs, U32_SPAN) && |EncodeAll(fs)| <= limit && Lasts(ch, limit)
    modifies Repr(ch), dec
    ensures dec.Valid() && |dec.buf| <= Decoder.COMPACT_ABOVE + (FRAME_HEADER_LEN - 1) + DEFAULT_MAX_FRAME_LEN + |chunk|
    ensures Honest(ch) && old(Published(ch)) <= Published(ch) <= fs && old(Count(ch)) <= Count(ch) <= |Published(ch)|
    ensures ok ==> Filling(ch, stream + chunk, fs, dec.Pending()) && ParseOne(dec.Pending(), DEFAULT_MAX_FRAME_LEN).NeedMore?
    ensures Passes(fs, MaxFrame(ch)) && Cooperative(backoffs) ==> ok
  {
    hide Honest, Lasts, EncodeAll, Published, Count, ParseOne, Decoder.Partway, MaxFrame, Cooperative, AllFit, Passes;
    Decoder.PartwayFeed(stream, DEFAULT_MAX_FRAME_LEN, Published(ch), dec.Pending(), chunk);
    dec.Feed(chunk);
    ok := PushFrames(dec, ch, backoffs, stream + chunk, fs, limit);
  }

  class Tunnel {
    const plain: bool               // the upstream is plaintext
    const c2g: Channel              // the sending client's ring
    const g2c: Channel              // the receiving client's ring
    const up: Upstream              // what the sending gateway has written
    const dec: Decoder.FrameDecoder // the receiving gateway's decoder
    var cursor: nat                 // how much of the stream the receiving gateway has read
    var senderDead: bool            // the sending relay gave up
    var receiverDead: bool          // the receiving relay gave up
    ghost const limit: nat          // bytes the rings' address arithmetic is exact for

    ghost function Parts(): set<object>
      reads this
    {
      Repr(c2g) + Repr(g2c) + {up, dec}
    }

    ghost predicate Apart()
      reads this
    {
      && Repr(c2g) !! Repr(g2c) && up !in Repr(c2g) && up !in Repr(g2c)
      && dec !in Repr(c2g) && dec !in Repr(g2c) && dec as object != up as object
      && this !in Parts()
    }

    /** While the sending relay lives, the stream spells exactly the frames taken from its ring;
        what it leaves behind when a write fails is still a prefix of the frames' wire form. */
    ghost predicate Spelled()
      reads this, Parts()
    {
      && cursor <= |up.wire| && up.wire <= EncodeAll(Published(c2g))
      && (!senderDead ==> Count(c2g) <= |Published(c2g)| && up.wire == Between(Published(c2g), 0, Count(c2g)))
    }

    /** While the receiving relay lives, what it read of the stream is re-framed into its ring, up
        to an incomplete frame. */
    ghost predicate Reframed()
      reads this, Parts()
    {
      && cursor <= |up.wire| && dec.Valid()
      && Decoder.Partway(up.wire[..cursor], DEFAULT_MAX_FRAME_LEN, Published(g2c), dec.Pending())
      && ParseOne(dec.Pending(), DEFAULT_MAX_FRAME_LEN).NeedMore?
    }

    ghost predicate Inv()
      reads this, Parts()
    {
      && Apart()
      && Honest(c2g) && Honest(g2c) && Lasts(c2g, limit) && Lasts(g2c, limit)
      && |EncodeAll(Published(c2g))| <= limit
      && dec.Valid() && dec.maxLen == DEFAULT_MAX_FRAME_LEN && |dec.buf| <= READ_BOUND
      && Published(g2c) <= Published(c2g)
      && Spelled()
      && (!receiverDead ==> Reframed())
    }

    /** The frames the receiving client has been given. */
    ghost function Arrived(): seq<Frame>
      reads this, Repr(g2c)
      requires Count(g2c) <= |Published(g2c)|
    {
      Published(g2c)[..Count(g2c)]
    }

    /** Every frame is within the decoder's limit and fits the receiving ring. */
    ghost predicate AllPass()
      reads this, Parts()
    {
      Passes(Published(c2g), MaxFrame(g2c))
    }

    constructor (plain: bool, c2g: Channel, g2c: Channel, up: Upstream, dec: Decoder.FrameDecoder, ghost limit: nat)
      requires Repr(c2g) !! Repr(g2c) && up !in Repr(c2g) && up !in Repr(g2c)
      requires dec !in Repr(c2g) && dec !in Repr(g2c) && dec as object != up as object
      requires dec.maxLen == DEFAULT_MAX_FRAME_LEN && dec.buf == [] && dec.pos == 0
      requires Honest(c2g) && Honest(g2c) && Published(c2g) == [] && Published(g2c) == [] && up.wire == []
      requires Lasts(c2g, limit) && Lasts(g2c, limit)
      ensures Inv() && !senderDead && !receiverDead && this.c2g == c2g && this.g2c == g2c && this.limit == limit && this.up == up
    {
      this.plain, this.c2g, this.g2c, this.up, this.dec, this.limit := plain, c2g, g2c, up, dec, limit;
      cursor, senderDead, receiverDead := 0, false, false;
      new;
      hide Honest, Decoder.Partway, Lasts, ParseOne, EncodeAll, Between, Published, Count;
      HonestBounds(c2g);
      assert up.wire[..0] == [];
      Decoder.StartOf([], DEFAULT_MAX_FRAME_LEN);
      ShortIsNeedMore(DEFAULT_MAX_FRAME_LEN);
      BetweenNone([], 0);
      EncodeAllUnfold([]);
    }

    /** The sending client pushes a batch. */
    method Send(id: u32, msgs: seq<seq<byte>>) returns (r: BatchResult)
      requires Inv() && |EncodeAll(Published(c2g))| + |EncodeAll(FramesOf(id, msgs))| <= limit
      modifies Repr(c2g)
      ensures Inv() && Published(g2c) == old(Published(g2c)) && Count(g2c) == old(Count(g2c))
      ensures exists n | 0 <= n <= |msgs| :: Published(c2g) == old(Published(c2g)) + FramesOf(id, msgs)[..n]
      ensures r.BatchSent? ==> r.n <= |msgs| && Published(c2g) == old(Published(c2g)) + FramesOf(id, msgs)[..r.n]
    {
      hide Honest, Lasts, EncodeAll, Between, Published, Count, FramesOf, ParseOne, Decoder.Partway;
      ghost var was, fs := Published(c2g), FramesOf(id, msgs);
      LastsDown(c2g, limit, |EncodeAll(was)| + |EncodeAll(fs)|);
      ghost var sent;
      r, sent := TrySendBatch(c2g, id, msgs);
      EncodeAllConcat(was, fs[..sent]);
      EncodeAllConcat(fs[..sent], fs[sent..]);
      assert fs == fs[..sent] + fs[sent..];
      StillPrefix(up.wire, was, fs[..sent]);
      if !senderDead { BetweenSame(was, Published(c2g), 0, Count(c2g)); }
    }

    /** The sending relay makes one pass, with the client pushing meanwhile. A write that fails ends
        it, with some of the pass on the wire. */
    method Drain(arrivals: seq<Batch>)
      requires Inv() && Holdable(c2g, Published(c2g), arrivals, limit)
      modifies this`senderDead, Repr(c2g), up
      ensures Inv() && old(Published(c2g)) <= Published(c2g) && old(up.wire) <= up.wire
      ensures arrivals == [] ==> Published(c2g) == old(Published(c2g))
      ensures Published(g2c) == old(Published(g2c)) && Count(g2c) == old(Count(g2c))
      ensures old(senderDead) ==> senderDead && up.wire == old(up.wire)
      ensures Reliable(old(up.fates)) ==> Reliable(up.fates) && senderDead == old(senderDead)
      ensures !senderDead && old(Count(c2g)) < |old(Published(c2g))| ==> Count(c2g) > old(Count(c2g))
    {
      hide Honest, Lasts, EncodeAll, Between, Published, Count, ParseOne, Decoder.Partway, Reliable;
      if senderDead { return; }
      ghost var was, wire, c := Published(c2g), up.wire, Count(c2g);
      var ok, rest := DrainOnce(c2g, up, plain, arrivals, limit);
      senderDead := !ok;
      assert wire[..cursor] == up.wire[..cursor];
      BetweenGrows(Published(c2g), c, Count(c2g), |Published(c2g)|);
      StillSpells(was, Published(c2g), c, wire, up.wire);
      BetweenSame(was, Published(c2g), 0, c);
      BetweenGrows(Published(c2g), 0, c, Count(c2g));
    }

    /** The receiving relay reads one chunk, re-frames it, and pushes every complete frame with
        backpressure, whether or not the sending relay is still there. It gives up only on an
        oversized length, a frame no slot can hold, or a client that is gone. */
    method Deliver(n: nat, backoffs: seq<Backoff>)
      requires Inv()
      modifies this`cursor, this`receiverDead, Repr(g2c), dec
      ensures Inv() && Published(c2g) == old(Published(c2g)) && Count(c2g) == old(Count(c2g))
      ensures old(Published(g2c)) <= Published(g2c) && old(Count(g2c)) <= Count(g2c)
      ensures old(receiverDead) ==> receiverDead && Published(g2c) == old(Published(g2c))
      ensures AllPass() && Cooperative(backoffs) ==> receiverDead == old(receiverDead)
      ensures !receiverDead ==> cursor == Min(old(cursor) + Min(n, RELAY_BUF_SIZE), |up.wire|)
    {
      hide Honest, Lasts, EncodeAll, Between, Published, Count, ParseOne, Decoder.Partway, MaxFrame, Passes, Cooperative, AllFit;
      if receiverDead { return; }
      var take := Min(Min(n, RELAY_BUF_SIZE), |up.wire| - cursor);
      var chunk := up.wire[cursor..cursor + take];
      SentFit(c2g);
      HonestBounds(g2c);
      assert up.wire[..cursor + take] == up.wire[..cursor] + chunk;
      var ok := FeedAndPush(dec, g2c, chunk, backoffs, up.wire[..cursor], Published(c2g), limit);
      cursor, receiverDead := cursor + take, !ok;
    }

    /** The receiving client takes a frame. */
    method Receive() returns (r: Option<Frame>)
      requires Inv()
      modifies Repr(g2c)
      ensures Inv() && Published(c2g) == old(Published(c2g)) && Count(c2g) == old(Count(c2g))
      ensures Published(g2c) == old(Published(g2c)) && Count(g2c) <= |Published(g2c)|
      ensures r.Some? ==> Arrived() == old(Arrived()) + [r.value]
      ensures r.None? ==> Arrived() == old(Arrived()) == Published(g2c)
    {
      hide Honest, Lasts, EncodeAll, Between, Published, Count, ParseOne, Decoder.Partway;
      HonestBounds(g2c);
      r := Pop(g2c);
      HonestBounds(g2c);
    }
  }

  /** Every run of the receiving side can be completed, even after the sending relay gave up: the
      receiving client gets every frame that is whole on the wire. */
  method FinishReceiving(t: Tunnel)
    requires t.Inv() && !t.receiverDead && t.AllPass()
    modifies t`cursor, t`receiverDead, Repr(t.g2c), t.dec
    ensures t.Inv() && !t.receiverDead && Published(t.c2g) == old(Published(t.c2g)) && Count(t.c2g) == old(Count(t.c2g))
    ensures Count(t.g2c) <= |Published(t.g2c)| && t.Arrived() == Published(t.g2c) && t.cursor == |t.up.wire|
    ensures t.Arrived() <= Published(t.c2g) && WholeIn(Published(t.c2g), t.up.wire, |t.Arrived()|)
  {
    hide Honest, Lasts, EncodeAll, Between, Published, Count, ParseOne, Decoder.Partway, MaxFrame, Passes, WholeIn;
    while t.cursor < |t.up.wire|
      invariant t.Inv() && !t.receiverDead && t.AllPass()
      invariant Published(t.c2g) == old(Published(t.c2g)) && Count(t.c2g) == old(Count(t.c2g))
    {
      t.Deliver(RELAY_BUF_SIZE, []);
    }
    SameFramesSameOrder(t);
    ghost var fs := Published(t.g2c);
    while true
      invariant t.Inv() && !t.receiverDead && t.cursor == |t.up.wire| && Published(t.g2c) == fs
      invariant Published(t.c2g) == old(Published(t.c2g)) && Count(t.c2g) == old(Count(t.c2g))
      decreases |Published(t.g2c)| - Count(t.g2c)
    {
      HonestBounds(t.g2c);
      var r := t.Receive();
      if r.None? { break; }
    }
  }

  /** Every run can be completed: as long as no relay gave up, every frame passes and writes do not
      fail, the remaining steps hand the receiving client everything that was pushed. */
  method Complete(t: Tunnel)
    requires t.Inv() && !t.senderDead && !t.receiverDead && t.AllPass() && Reliable(t.up.fates)
    modifies t, t.Parts()
    ensures t.Inv() && !t.senderDead && !t.receiverDead && Published(t.c2g) == old(Published(t.c2g))
    ensures Count(t.g2c) <= |Published(t.g2c)| && t.Arrived() == Published(t.c2g)
  {
    hide Honest, Lasts, EncodeAll, Between, Published, Count, ParseOne, Decoder.Partway, MaxFrame, Passes, Reliable, WholeIn;
    DrainAllOf(t);
    FinishReceiving(t);
    SameFramesSameOrder(t);
  }

  method DrainAllOf(t: Tunnel)
    requires t.Inv() && !t.senderDead && t.AllPass() && Reliable(t.up.fates)
    modifies t`senderDead, Repr(t.c2g), t.up
    ensures t.Inv() && !t.senderDead && t.AllPass() && Published(t.g2c) == old(Published(t.g2c))
    ensures Published(t.c2g) == old(Published(t.c2g)) && Count(t.c2g) == |Published(t.c2g)|
  {
    hide Honest, Lasts, EncodeAll, Between, Published, Count, ParseOne, Decoder.Partway, MaxFrame, Passes, Reliable;
    ghost var fs := Published(t.c2g);
    while true
      invariant t.Inv() && !t.senderDead && Reliable(t.up.fates) && Published(t.c2g) == fs && t.AllPass()
      invariant Published(t.g2c) == old(Published(t.g2c))
      decreases |fs| - Count(t.c2g)
    {
      var empty := IsEmpty(t.c2g);
      if empty { return; }
      NoneHoldable(t.c2g, fs, t.limit);
      t.Drain([]);
    }
  }

  lemma NoneHoldable(ch: Channel, fs: seq<Frame>, limit: nat)
    requires |EncodeAll(fs)| <= limit && Lasts(ch, limit)
    ensures Holdable(ch, fs, [], limit)
  {
  }

  lemma SentFit(ch: Channel)
    requires Honest(ch)
    ensures AllFit(Published(ch), U32_SPAN)
  {
    hide Honest;
    HonestBounds(ch);
  }

  /** Same frames, same order: in every reachable state, whichever relays have given up, the
      receiving client has been given exactly the first frames the sending client pushed. A live
      receiving relay that has read the whole stream has published every frame that is whole in
      it; and once nothing is in flight, all of them. */
  lemma SameFramesSameOrder(t: Tunnel)
    requires t.Inv()
    ensures Count(t.g2c) <= |Published(t.g2c)| && t.Arrived() <= Published(t.c2g)
    ensures !t.receiverDead && t.AllPass() && t.cursor == |t.up.wire| ==>
              WholeIn(Published(t.c2g), t.up.wire, |Published(t.g2c)|)
    ensures !t.senderDead && !t.receiverDead && t.AllPass() && Count(t.c2g) == |Published(t.c2g)| && t.cursor == |t.up.wire| ==>
              Published(t.g2c) == Published(t.c2g)
  {
    hide Honest, Lasts, EncodeAll, Between, Published, Count, ParseOne, Decoder.Partway, MaxFrame, WholeIn;
    HonestBounds(t.g2c);
    SentFit(t.c2g);
    var fs := Published(t.c2g);
    if !t.receiverDead && t.AllPass() && t.cursor == |t.up.wire| {
      assert t.up.wire[..t.cursor] == t.up.wire;
      PartwayWholeIn(t.up.wire, Published(t.g2c), t.dec.Pending(), fs);
      if !t.senderDead && Count(t.c2g) == |fs| {
        assert fs[0..|fs|] == fs;
        BetweenIs(fs, 0, |fs|);
        PartwayWhole(Published(t.g2c), t.dec.Pending(), fs);
      }
    }
  }

  /** The same bytes from every path: draining either ring kind, with or without zero copy, puts the
      same stream on the wire as a batched socket send of the same messages. */
  method SameBytes(ch: Channel, up: Upstream, zeroCopy: bool, sock: UdsSend.Socket, id: u32,
                   msgs: seq<seq<byte>>, ghost limit: nat)
    requires Honest(ch) && Holdable(ch, Published(ch), [], limit) && up !in Repr(ch) && sock !in Repr(ch)
    requires Count(ch) <= |Published(ch)| && Waiting(ch) == FramesOf(id, msgs)
    requires up.wire == sock.wire && Reliable(up.fates) && UdsSend.Orderly(sock.script)
    modifies Repr(ch), up, sock
    ensures up.wire == sock.wire == old(up.wire) + EncodeAll(FramesOf(id, msgs))
    ensures Honest(ch) && Count(ch) == |Published(ch)|
  {
    hide Honest, Published, Count, Holdable, EncodeAll, Reliable, FramesOf, UdsSend.Orderly;
    ghost var fs := FramesOf(id, msgs);
    WaitingSendable(ch, id, msgs);
    var ok := DrainAll(ch, up, zeroCopy, limit);
    var r, sent := UdsSend.SendBatch(sock, id, msgs);
  }

  lemma WaitingSendable(ch: Channel, id: u32, msgs: seq<seq<byte>>)
    requires Honest(ch) && Count(ch) <= |Published(ch)| && Waiting(ch) == FramesOf(id, msgs)
    ensures UdsSend.Sendable(msgs)
  {
    hide Honest, Published, Count;
    HonestBounds(ch);
    forall m | m in msgs ensures |m| < U32_SPAN {
      var i :| 0 <= i < |msgs| && msgs[i] == m;
      assert FramesOf(id, msgs)[i] == Frame(id, m);
      assert Waiting(ch)[i] in Published(ch);
    }
  }
}
