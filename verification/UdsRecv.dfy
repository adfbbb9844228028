/** The Unix-socket client's receive paths: frames re-assembled from large reads by one decoder
    that is fed only when no complete frame is left in it. */
module UdsRecv {
  import opened Words
  import opened Frames
  import opened Decoder
  import opened Copies

  const RECV_BUF_LEN: nat := 256 * 1024

  /** What one poll-and-read does. */
  datatype Arrival = Ready(most: nat) | Quiet | Signal | Broken

  datatype Fill = Filled | Timeout | Ended | FillError

  /** What an arrival makes of one attempt to read. */
  function Outcome(a: Arrival, incoming: seq<byte>): Fill {
    match a
    case Quiet => Timeout
    case Signal => Filled
    case Broken => FillError
    case Ready(_) => if incoming == [] then Ended else Filled
  }

  datatype Recv = Message(frame: Frame) | TimedOut | Closed | TooLong | RecvError

  datatype BatchRecv = Batch(count: nat) | NoBatch | BatchClosed | BatchTooLong | BatchError

  /** The decoder never holds more than this. */
  const BUF_BOUND: nat := COMPACT_ABOVE + (FRAME_HEADER_LEN - 1) + DEFAULT_MAX_FRAME_LEN + RECV_BUF_LEN

  // ── Rows of a receive buffer ──

  /** Row `i` of the buffer holds a payload, cut to the stride. */
  ghost predicate Row(bytes: seq<byte>, stride: nat, lens: seq<nat>, i: nat, f: Frame) {
    && i < |lens| && lens[i] == Min(|f.payload|, stride)
    && i * stride + lens[i] <= |bytes|
    && bytes[i * stride..i * stride + lens[i]] == f.payload[..lens[i]]
  }

  ghost predicate Laid(bytes: seq<byte>, stride: nat, lens: seq<nat>, fs: seq<Frame>) {
    forall i :: 0 <= i < |fs| ==> Row(bytes, stride, lens, i, fs[i])
  }

  lemma NothingLaid(bytes: seq<byte>, stride: nat, lens: seq<nat>)
    ensures Laid(bytes, stride, lens, [])
  {
  }

  lemma RowStart(i: nat, stride: nat)
    ensures i * stride + stride == (i + 1) * stride
  {
  }

  lemma RowsApart(i: nat, j: nat, stride: nat)
    requires i < j
    ensures i * stride + stride <= j * stride
  {
    if stride > 0 { MulAtLeast(j - i, stride); }
    assert (j - i) * stride == j * stride - i * stride;
  }

  lemma RowKept(bytes: seq<byte>, stride: nat, lens: seq<nat>, i: nat, g: Frame, j: nat, data: seq<byte>)
    requires Row(bytes, stride, lens, i, g) && i < j < |lens| && j * stride + |data| <= |bytes|
    ensures Row(Splice(bytes, j * stride, data), stride, lens[j := |data|], i, g)
  {
    hide Splice;
    RowsApart(i, j, stride);
    SpliceOutside(bytes, j * stride, data, i * stride, i * stride + lens[i]);
  }

  lemma RowMade(bytes: seq<byte>, stride: nat, lens: seq<nat>, j: nat, f: Frame)
    requires j < |lens| && j * stride + stride <= |bytes|
    ensures var n := Min(|f.payload|, stride); Row(Splice(bytes, j * stride, f.payload[..n]), stride, lens[j := n], j, f)
  {
    var n, at := Min(|f.payload|, stride), j * stride;
    assert Splice(bytes, at, f.payload[..n])[at..at + n] == f.payload[..n];
  }

  lemma LaidOneMore(bytes: seq<byte>, stride: nat, lens: seq<nat>, fs: seq<Frame>, f: Frame)
    requires Laid(bytes, stride, lens, fs) && |fs| < |lens| && |fs| * stride + stride <= |bytes|
    ensures var n := Min(|f.payload|, stride);
            Laid(Splice(bytes, |fs| * stride, f.payload[..n]), stride, lens[|fs| := n], fs + [f])
  {
    hide Row, Splice;
    var n, j := Min(|f.payload|, stride), |fs|;
    RowMade(bytes, stride, lens, j, f);
    forall i | 0 <= i < j ensures Row(Splice(bytes, j * stride, f.payload[..n]), stride, lens[j := n], i, fs[i]) {
      RowKept(bytes, stride, lens, i, fs[i], j, f.payload[..n]);
    }
  }

  /** How many frames a batch call takes at most. */
  function BatchCap(room: nat, stride: nat, lens: nat): nat {
    if stride == 0 then 0 else Min(lens, room / stride)
  }

  class Client {
    const dec: FrameDecoder
    var incoming: seq<byte>       // sent by the gateway, not yet read
    var script: seq<Arrival>      // when reads succeed and how much they return
    ghost var received: seq<byte>
    ghost var consumed: seq<Frame>   // taken out of the decoder
    ghost var delivered: seq<Frame>  // handed to the caller
    ghost var lost: seq<Frame>       // consumed by a call that then failed

    /** The decoder is partway through the bytes received, and its memory is bounded. */
    ghost predicate Sound()
      reads this, dec
    {
      && dec.Valid() && dec.maxLen == DEFAULT_MAX_FRAME_LEN
      && Partway(received, DEFAULT_MAX_FRAME_LEN, consumed, dec.Pending())
      && |dec.buf| <= BUF_BOUND
    }

    /** Between calls: what was consumed was handed over, and then perhaps some of it lost in front of
        an oversized length that is still there. */
    ghost predicate Valid()
      reads this, dec
    {
      && Sound() && consumed == delivered + lost
      && (lost != [] ==> ParseOne(dec.Pending(), DEFAULT_MAX_FRAME_LEN).TooLarge?)
    }

    /** Everything the gateway will have sent. */
    ghost function Stream(): seq<byte>
      reads this
    {
      received + incoming
    }

    constructor (incoming: seq<byte>, script: seq<Arrival>)
      ensures Valid() && Stream() == incoming && delivered == lost == [] && fresh(dec)
    {
      dec := new FrameDecoder(DEFAULT_MAX_FRAME_LEN);
      this.incoming, this.script := incoming, script;
      received, consumed, delivered, lost := [], [], [], [];
      new;
      Begins(this);
    }

    /** One poll-and-read into the decoder; a schedule that is used up stays quiet. */
    method FillOnce() returns (r: Fill)
      requires Sound() && ParseOne(dec.Pending(), DEFAULT_MAX_FRAME_LEN).NeedMore?
      modifies this, dec
      ensures Sound() && Stream() == old(Stream())
      ensures consumed == old(consumed) && delivered == old(delivered) && lost == old(lost)
      ensures old(script) == [] ==> r == Timeout && script == []
      ensures old(script) != [] ==> script == old(script)[1..] && r == Outcome(old(script)[0], old(incoming))
      ensures |incoming| <= |old(incoming)| && received == old(received) + old(incoming)[..|old(incoming)| - |incoming|]
      ensures dec.Pending() == old(dec.Pending()) + received[|old(received)|..]
      ensures old(script) != [] && old(script)[0].Ready? && old(incoming) != [] ==> |incoming| < |old(incoming)|
      ensures |old(incoming)| - |incoming| <= RECV_BUF_LEN
      ensures r != Filled ==> received == old(received) && incoming == old(incoming) && dec.Pending() == old(dec.Pending())
    {
      hide ParseOne, Partway;
      if script == [] { return Timeout; }
      var e := script[0];
      script := script[1..];
      match e {
        case Quiet => return Timeout;
        case Signal => return Filled;
        case Broken => return FillError;
        case Ready(most) =>
          var n := Min(Min(Max(most, 1), RECV_BUF_LEN), |incoming|);
          if n == 0 { return Ended; }
          var data := incoming[..n];
          PartwayFeed(received, DEFAULT_MAX_FRAME_LEN, consumed, dec.Pending(), data);
          dec.Feed(data);
          assert (received + data) + incoming[n..] == received + incoming;
          received := received + data;
          incoming := incoming[n..];
          return Filled;
      }
    }

    /** The next buffered frame, if one is complete. */
    method NextBuffered() returns (r: Parse)
      requires Sound()
      modifies this, dec
      ensures Sound() && r == ParseOne(old(dec.Pending()), DEFAULT_MAX_FRAME_LEN)
      ensures received == old(received) && incoming == old(incoming) && script == old(script)
      ensures delivered == old(delivered) && lost == old(lost)
      ensures consumed == if r.Got? then old(consumed) + [r.frame] else old(consumed)
      ensures dec.Pending() == if r.Got? then After(old(dec.Pending()), r.frame) else old(dec.Pending())
    {
      hide ParseOne, Partway;
      ghost var pending := dec.Pending();
      r := dec.NextFrame();
      if r.Got? {
        PartwayNext(received, DEFAULT_MAX_FRAME_LEN, consumed, pending);
        consumed := consumed + [r.frame];
      }
    }

    /** The next buffered frame, handed to the caller. */
    method TakeMessage() returns (r: Parse)
      requires Valid()
      modifies this, dec
      ensures Valid() && Stream() == old(Stream()) && script == old(script) && lost == old(lost)
      ensures delivered == if r.Got? then old(delivered) + [r.frame] else old(delivered)
      ensures !r.Got? ==> r == ParseOne(dec.Pending(), DEFAULT_MAX_FRAME_LEN)
    {
      hide ParseOne, Partway;
      r := NextBuffered();
      if r.Got? { delivered := delivered + [r.frame]; }
    }

    /** Every message is the next frame of the gateway's stream. */
    method RecvTimeout() returns (r: Recv)
      requires Valid()
      modifies this, dec
      ensures Valid() && Stream() == old(Stream()) && lost == old(lost)
      ensures delivered == if r.Message? then old(delivered) + [r.frame] else old(delivered)
      ensures r.TooLong? <==> ParseOne(dec.Pending(), DEFAULT_MAX_FRAME_LEN).TooLarge? && !r.Message?
      ensures !r.Message? && !r.TooLong? ==> ParseOne(dec.Pending(), DEFAULT_MAX_FRAME_LEN).NeedMore?
      ensures r.TimedOut? ==> script == [] || Quiet in old(script)
      ensures r.Closed? ==> incoming == []
      ensures r.RecvError? ==> Broken in old(script)
    {
      hide ParseOne, Partway;
      while true
        invariant Valid() && Stream() == old(Stream()) && delivered == old(delivered) && lost == old(lost)
        invariant forall e :: e in script ==> e in old(script)
        decreases |script|
      {
        var p := TakeMessage();
        match p {
          case Got(f) => return Message(f);
          case TooLarge(_) => return TooLong;
          case NeedMore =>
        }
        assert script != [] ==> script[0] in script;
        var e := FillOnce();
        match e {
          case Filled =>
          case Timeout => return TimedOut;
          case Ended => return Closed;
          case FillError => return RecvError;
        }
      }
    }

    /** Copy one payload to row `count`. */
    method LayOne(out: array<byte>, stride: nat, lens: array<nat>, ghost fs: seq<Frame>, count: nat, f: Frame)
      requires out as object != lens as object && |fs| == count < lens.Length
      requires Laid(out[..], stride, lens[..], fs) && (count + 1) * stride <= out.Length
      modifies out, lens
      ensures Laid(out[..], stride, lens[..], fs + [f])
    {
      hide Laid;
      ghost var bytes, ls := out[..], lens[..];
      var n: nat := Min(|f.payload|, stride);
      RowStart(count, stride);
      var at := count * stride;
      forall k | 0 <= k < n { out[at + k] := f.payload[k]; }
      lens[count] := n;
      assert out[..] == Splice(bytes, at, f.payload[..n]);
      assert lens[..] == ls[count := n];
      LaidOneMore(bytes, stride, ls, fs, f);
    }

    /** Take buffered frames into `out`, at most `cap` of them. */
    method TakeBuffered(out: array<byte>, stride: nat, lens: array<nat>, cap: nat)
      returns (count: nat, stop: Parse, ghost fs: seq<Frame>)
      requires Sound() && out as object != lens as object && cap <= lens.Length && cap * stride <= out.Length
      modifies this, dec, out, lens
      ensures Sound() && incoming == old(incoming) && received == old(received) && script == old(script)
      ensures delivered == old(delivered) && lost == old(lost) && consumed == old(consumed) + fs
      ensures count == |fs| <= cap && Laid(out[..], stride, lens[..], fs)
      ensures OnePass(old(dec.Pending()), cap, fs, dec.Pending())
      ensures stop.Got? <==> count == cap
      ensures count < cap ==> stop == ParseOne(dec.Pending(), DEFAULT_MAX_FRAME_LEN)
    {
      hide ParseOne, Partway, Laid, Decode;
      count, fs := 0, [];
      stop := Got(Frame(0, []));
      NothingLaid(out[..], stride, lens[..]);
      ghost var p := dec.Pending();
      while count < cap
        invariant Sound() && incoming == old(incoming) && received == old(received) && script == old(script)
        invariant delivered == old(delivered) && lost == old(lost) && consumed == old(consumed) + fs
        invariant count == |fs| <= cap && Laid(out[..], stride, lens[..], fs)
        invariant Decode(p, DEFAULT_MAX_FRAME_LEN).frames == fs + Decode(dec.Pending(), DEFAULT_MAX_FRAME_LEN).frames
        invariant Decode(p, DEFAULT_MAX_FRAME_LEN).rest == Decode(dec.Pending(), DEFAULT_MAX_FRAME_LEN).rest
        invariant stop.Got?
      {
        DecodeUnfold(dec.Pending(), DEFAULT_MAX_FRAME_LEN);
        ghost var rest := dec.Pending();
        var next := NextBuffered();
        if !next.Got? { stop := next; return; }
        ghost var more := Decode(After(rest, next.frame), DEFAULT_MAX_FRAME_LEN).frames;
        assert fs + ([next.frame] + more) == (fs + [next.frame]) + more;
        RowInside(count, cap, stride);
        LayOne(out, stride, lens, fs, count, next.frame);
        fs := fs + [next.frame];
        count := count + 1;
      }
    }

    /** Up to `lens.Length` frames of the stream, in order, each cut to the stride. Nothing is read
        while a complete frame is buffered. With `p` the bytes pending when the last pass began, the
        call takes the first frames `p` decodes to; it fails exactly when an oversized length comes
        before its room is used up, and then loses what it had taken. */
    method RecvBatchInto(out: array<byte>, stride: nat, lens: array<nat>) returns (r: BatchRecv, ghost fs: seq<Frame>)
      requires Valid() && out as object != lens as object
      modifies this, dec, out, lens
      ensures Valid() && Stream() == old(Stream()) && old(received) <= received
      ensures var p := old(dec.Pending()) + received[|old(received)|..];
        var d, cap := Decode(p, DEFAULT_MAX_FRAME_LEN), BatchCap(out.Length, stride, lens.Length);
        Decides(d, cap, r, fs) && (lost != old(lost) <==> r.BatchTooLong? && d.frames != [])
      ensures delivered == old(delivered) + if r.Batch? then fs else []
      ensures lost == old(lost) + if r.BatchTooLong? then fs else []
      ensures r.Batch? ==> r.count == |fs| && |fs| * stride <= out.Length && Laid(out[..], stride, lens[..], fs)
      ensures r.NoBatch? && BatchCap(out.Length, stride, lens.Length) > 0 ==> script == [] || Quiet in old(script)
      ensures r.BatchClosed? ==> incoming == []
      ensures r.BatchError? ==> Broken in old(script)
      ensures BatchCap(out.Length, stride, lens.Length) == 0 ==> r == NoBatch && dec.Pending() == old(dec.Pending())
    {
      hide ParseOne, Partway, Laid, Decode;
      if stride == 0 || lens.Length == 0 || out.Length < stride {
        NoRoom(out.Length, stride, lens.Length);
        return NoBatch, [];
      }
      var cap := Min(lens.Length, out.Length / stride);
      RowsInside(cap, out.Length, stride);
      r, fs := RecvRounds(out, stride, lens, cap);
    }

    /** The loop of a batch receive: take what is buffered, or read more. */
    method RecvRounds(out: array<byte>, stride: nat, lens: array<nat>, cap: nat) returns (r: BatchRecv, ghost fs: seq<Frame>)
      requires Valid() && out as object != lens as object && 0 < cap <= lens.Length && cap * stride <= out.Length
      modifies this, dec, out, lens
      ensures Valid() && Stream() == old(Stream()) && old(received) <= received
      ensures Decides(Decode(old(dec.Pending()) + received[|old(received)|..], DEFAULT_MAX_FRAME_LEN), cap, r, fs)
      ensures delivered == old(delivered) + if r.Batch? then fs else []
      ensures lost == old(lost) + if r.BatchTooLong? then fs else []
      ensures r.Batch? ==> r.count == |fs| && |fs| * stride <= out.Length && Laid(out[..], stride, lens[..], fs)
      ensures r.NoBatch? ==> script == [] || Quiet in old(script)
      ensures r.BatchClosed? ==> incoming == []
      ensures r.BatchError? ==> Broken in old(script)
    {
      hide ParseOne, Partway, Laid, Decode, OnePass, Decides;
      ghost var p0, n0 := dec.Pending(), |received|;
      assert received[n0..] == [] && p0 + [] == p0;
      while true
        invariant Valid() && Stream() == old(Stream()) && delivered == old(delivered) && lost == old(lost)
        invariant old(received) <= received && dec.Pending() == p0 + received[n0..]
        invariant forall e :: e in script ==> e in old(script)
        decreases |script|
      {
        ghost var p, got := dec.Pending(), received;
        var count, stop;
        count, stop, fs := TakeBuffered(out, stride, lens, cap);
        PassDecides(p, cap, fs, dec.Pending());
        assert fs != [] ==> lost == [];
        if stop.TooLarge? {
          assert (delivered + lost) + fs == delivered + (lost + fs);
          lost := lost + fs;
          return BatchTooLong, fs;
        }
        if count > 0 {
          RowInside(count - 1, cap, stride);
          delivered := delivered + fs;
          return Batch(count), fs;
        }
        assert script != [] ==> script[0] in script;
        var e := FillOnce();
        PendingGrows(p0, got, received, n0);
        match e {
          case Filled =>
          case Timeout => return NoBatch, fs;
          case Ended => return BatchClosed, fs;
          case FillError => return BatchError, fs;
        }
      }
    }
  }

  // ── What one pass takes ──

  /** At most `cap` frames of what `p` decodes to, leaving the rest. */
  ghost predicate OnePass(p: seq<byte>, cap: nat, fs: seq<Frame>, rest: seq<byte>) {
    && |fs| <= cap
    && Decode(p, DEFAULT_MAX_FRAME_LEN).frames == fs + Decode(rest, DEFAULT_MAX_FRAME_LEN).frames
    && Decode(p, DEFAULT_MAX_FRAME_LEN).rest == Decode(rest, DEFAULT_MAX_FRAME_LEN).rest
    && (|fs| < cap ==> !ParseOne(rest, DEFAULT_MAX_FRAME_LEN).Got?)
  }

  /** What bytes that decode to `d` make of a call with room for `cap` frames. */
  ghost predicate Decides(d: Decoded, cap: nat, r: BatchRecv, fs: seq<Frame>) {
    && fs == d.frames[..Min(cap, |d.frames|)]
    && (r.BatchTooLong? <==> |d.frames| < cap && ParseOne(d.rest, DEFAULT_MAX_FRAME_LEN).TooLarge?)
    && (r.Batch? <==> fs != [] && !r.BatchTooLong?)
  }

  lemma PassDecides(p: seq<byte>, cap: nat, fs: seq<Frame>, rest: seq<byte>)
    requires OnePass(p, cap, fs, rest) && cap > 0
    ensures var d := Decode(p, DEFAULT_MAX_FRAME_LEN);
      && (|fs| < cap && ParseOne(rest, DEFAULT_MAX_FRAME_LEN).TooLarge? ==> Decides(d, cap, BatchTooLong, fs))
      && (|fs| == cap || !ParseOne(rest, DEFAULT_MAX_FRAME_LEN).TooLarge? ==>
            && (fs != [] ==> Decides(d, cap, Batch(|fs|), fs))
            && (fs == [] ==> Decides(d, cap, NoBatch, fs) && Decides(d, cap, BatchClosed, fs) && Decides(d, cap, BatchError, fs)))
    ensures fs == [] ==> rest == p
    ensures fs != [] ==> ParseOne(p, DEFAULT_MAX_FRAME_LEN).Got?
  {
    hide ParseOne, Decode;
    DecodeUnfold(rest, DEFAULT_MAX_FRAME_LEN);
    DecodeUnfold(p, DEFAULT_MAX_FRAME_LEN);
    assert Decode(p, DEFAULT_MAX_FRAME_LEN).frames[..|fs|] == fs;
  }

  lemma PendingGrows(p: seq<byte>, a: seq<byte>, b: seq<byte>, n: nat)
    requires a <= b && n <= |a|
    ensures (p + a[n..]) + b[|a|..] == p + b[n..]
  {
  }

  /** As many rows as there are lengths for and room for, and no fewer. */
  lemma BatchCapLargest(room: nat, stride: nat, lens: nat)
    requires stride > 0
    ensures var cap := BatchCap(room, stride, lens);
      cap <= lens && cap * stride <= room && (cap < lens ==> (cap + 1) * stride > room)
  {
    var q, cap := room / stride, BatchCap(room, stride, lens);
    assert room == q * stride + room % stride;
    assert (q + 1) * stride == q * stride + stride;
    assert (q - cap) * stride >= 0 && (q - cap) * stride == q * stride - cap * stride;
  }

  lemma NoRoom(room: nat, stride: nat, lens: nat)
    requires stride == 0 || lens == 0 || room < stride
    ensures BatchCap(room, stride, lens) == 0
  {
    if 0 < stride && room < stride { DivModUnique(room, stride, 0, room); }
  }

  /** A complete frame in front of an oversized length: with room for two frames the call fails and the
      frame is lost; with room for one it is handed over. */
  lemma FrameBeforeOversized(f: Frame, id: u32)
    requires Fits(f, DEFAULT_MAX_FRAME_LEN)
    ensures var p := Encode(f) + EncodeHeader(DEFAULT_MAX_FRAME_LEN + 1, id);
      var d := Decode(p, DEFAULT_MAX_FRAME_LEN);
      && (forall cap: nat, r, fs | cap >= 2 && Decides(d, cap, r, fs) :: r == BatchTooLong && fs == [f])
      && (forall r, fs | Decides(d, 1, r, fs) :: r.Batch? && fs == [f])
  {
    hide Encode, Decode, EncodeHeader, DecodeHeader;
    var h := EncodeHeader(DEFAULT_MAX_FRAME_LEN + 1, id);
    DecodeCons(f, h, DEFAULT_MAX_FRAME_LEN);
    HeaderRoundTrip(DEFAULT_MAX_FRAME_LEN + 1, id);
    assert h[..FRAME_HEADER_LEN] == h;
    DecodeUnfold(h, DEFAULT_MAX_FRAME_LEN);
  }

  lemma Begins(c: Client)
    requires c.dec.buf == [] && c.dec.pos == 0 && c.dec.maxLen == DEFAULT_MAX_FRAME_LEN
    requires c.received == [] && c.consumed == [] && c.delivered == [] && c.lost == []
    ensures c.Valid() && c.Stream() == c.incoming
  {
    hide Partway;
    StartOf([], DEFAULT_MAX_FRAME_LEN);
  }

  lemma RowInside(i: nat, cap: nat, stride: nat)
    requires i < cap
    ensures (i + 1) * stride <= cap * stride
  {
  }

  lemma RowsInside(cap: nat, len: nat, stride: nat)
    requires 0 < stride <= len && cap <= len / stride
    ensures cap * stride <= len && len / stride >= 1
  {
    assert len / stride * stride <= len;
    assert cap * stride <= len / stride * stride;
    assert len / stride >= 1;
  }

  /** Whatever calls were made, the messages handed over are the first frames of the one-shot decoding
      of the gateway's stream. Frames are missing only if a batch call lost them, right behind those
      handed over and in front of an oversized length; the buffer has stayed within its bound. */
  lemma DeliveredIsDecoded(c: Client)
    requires c.Valid()
    ensures c.delivered + c.lost <= Decode(c.Stream(), DEFAULT_MAX_FRAME_LEN).frames
    ensures c.incoming == [] && !ParseOne(c.dec.Pending(), DEFAULT_MAX_FRAME_LEN).Got? ==>
              c.delivered + c.lost == Decode(c.Stream(), DEFAULT_MAX_FRAME_LEN).frames
    ensures c.lost != [] ==>
      var d := Decode(c.Stream(), DEFAULT_MAX_FRAME_LEN);
      c.delivered + c.lost == d.frames && ParseOne(d.rest, DEFAULT_MAX_FRAME_LEN).TooLarge?
    ensures |c.dec.buf| <= BUF_BOUND
  {
    hide ParseOne, Decode, Partway;
    var pending := c.dec.Pending();
    PartwayFeed(c.received, DEFAULT_MAX_FRAME_LEN, c.consumed, pending, c.incoming);
    PartwayDecodes(c.Stream(), DEFAULT_MAX_FRAME_LEN, c.consumed, pending + c.incoming);
    assert c.incoming == [] ==> pending + c.incoming == pending;
    if c.lost != [] { ParseStable(pending, c.incoming, DEFAULT_MAX_FRAME_LEN); }
  }
}
