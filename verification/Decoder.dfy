/** Decoding a framed byte stream: the incremental decoder fed in arbitrary chunks, the blocking
    reader under arbitrary short reads and interrupts, and their agreement with one-shot decoding. */
module Decoder {
  import opened Words
  import opened Frames

  /** A consumed prefix longer than this is dropped at the next feed. */
  const COMPACT_ABOVE: nat := 64 * 1024

  class FrameDecoder {
    var buf: seq<byte>
    var pos: nat
    const maxLen: nat

    ghost predicate Valid()
      reads this
    {
      pos <= |buf|
    }

    /** The bytes fed and not yet returned in a frame. */
    ghost function Pending(): seq<byte>
      reads this
      requires Valid()
    {
      buf[pos..]
    }

    constructor (maxLen: nat)
      ensures Valid() && Pending() == [] && this.maxLen == maxLen && buf == [] && pos == 0
    {
      buf, pos, this.maxLen := [], 0, maxLen;
    }

    /** Feeding appends; compaction changes no pending byte and bounds the buffer. */
    method Feed(data: seq<byte>)
      requires Valid()
      modifies this
      ensures Valid() && Pending() == old(Pending()) + data
      ensures |buf| <= COMPACT_ABOVE + |old(Pending())| + |data|
      ensures !ParseOne(old(Pending()), maxLen).Got? && !ParseOne(old(Pending()), maxLen).TooLarge? ==>
                |buf| <= COMPACT_ABOVE + (FRAME_HEADER_LEN - 1) + maxLen + |data|
    {
      hide ParseOne;
      if ParseOne(Pending(), maxLen).NeedMore? { NeedMoreIsShort(Pending(), maxLen); }
      if pos == |buf| {
        buf, pos := [], 0;
      } else if pos > COMPACT_ABOVE {
        buf, pos := buf[pos..], 0;
      }
      buf := buf + data;
    }

    /** The next frame is the one at the front of the pending bytes; without one nothing changes. */
    method NextFrame() returns (r: Parse)
      requires Valid()
      modifies this
      ensures Valid() && buf == old(buf)
      ensures r == ParseOne(old(Pending()), maxLen)
      ensures Pending() == if r.Got? then After(old(Pending()), r.frame) else old(Pending())
    {
      hide DecodeHeader;
      var avail := |buf| - pos;
      if avail < FRAME_HEADER_LEN { return NeedMore; }
      var hdr := buf[pos..pos + FRAME_HEADER_LEN];
      assert hdr == Pending()[..FRAME_HEADER_LEN];
      var (len, id) := DecodeHeader(hdr);
      if len > maxLen { return TooLarge(len); }
      var total := FRAME_HEADER_LEN + len;
      if avail < total { return NeedMore; }
      var start := pos + FRAME_HEADER_LEN;
      assert buf[start..start + len] == Pending()[FRAME_HEADER_LEN..total];
      pos := pos + total;
      r := Got(Frame(id, buf[start..start + len]));
    }
  }

  // ── Any interleaving of feeds and extractions ──

  datatype Op = FeedBytes(bytes: seq<byte>) | Next

  /** The byte stream a sequence of operations feeds. */
  function Fed(ops: seq<Op>): seq<byte> {
    if ops == [] then []
    else
      var last := ops[|ops| - 1];
      Fed(ops[..|ops| - 1]) + if last.FeedBytes? then last.bytes else []
  }

  /** How many extractions the operations attempt. */
  function Attempts(ops: seq<Op>): nat {
    if ops == [] then 0 else Attempts(ops[..|ops| - 1]) + if ops[|ops| - 1].Next? then 1 else 0
  }

  /** The frames among the answers. */
  function Taken(answers: seq<Parse>): seq<Frame> {
    if answers == [] then []
    else
      var last := answers[|answers| - 1];
      Taken(answers[..|answers| - 1]) + if last.Got? then [last.frame] else []
  }

  lemma TakenSnoc(answers: seq<Parse>, r: Parse)
    ensures Taken(answers + [r]) == if r.Got? then Taken(answers) + [r.frame] else Taken(answers)
    ensures Taken([]) == []
  {
    assert (answers + [r])[..|answers|] == answers;
  }

  lemma FedSnoc(ops: seq<Op>, i: nat)
    requires i < |ops|
    ensures Fed(ops[..i + 1]) == Fed(ops[..i]) + if ops[i].FeedBytes? then ops[i].bytes else []
    ensures Attempts(ops[..i + 1]) == Attempts(ops[..i]) + if ops[i].Next? then 1 else 0
  {
    assert ops[..i + 1][..i] == ops[..i];
  }

  /** What has come out of a stream so far: these frames, with these bytes still pending. */
  ghost predicate Partway(stream: seq<byte>, maxLen: nat, frames: seq<Frame>, pending: seq<byte>) {
    && EncodeAll(frames) + pending == stream
    && AllFit(frames, maxLen)
  }

  lemma PartwayFeed(stream: seq<byte>, maxLen: nat, frames: seq<Frame>, pending: seq<byte>, data: seq<byte>)
    requires Partway(stream, maxLen, frames, pending)
    ensures Partway(stream + data, maxLen, frames, pending + data)
  {
    hide EncodeAll;
    assert EncodeAll(frames) + (pending + data) == (EncodeAll(frames) + pending) + data;
  }

  lemma PartwayNext(stream: seq<byte>, maxLen: nat, frames: seq<Frame>, pending: seq<byte>)
    requires Partway(stream, maxLen, frames, pending) && ParseOne(pending, maxLen).Got?
    ensures var f := ParseOne(pending, maxLen).frame;
            Partway(stream, maxLen, frames + [f], After(pending, f))
  {
    hide EncodeAll, Encode, ParseOne;
    var f := ParseOne(pending, maxLen).frame;
    ParsedReencodes(pending, maxLen);
    EncodeAllSnoc(frames, f);
    assert (EncodeAll(frames) + Encode(f)) + After(pending, f) == EncodeAll(frames) + (Encode(f) + After(pending, f));
  }

  /** Frames taken so far, and what the pending bytes still decode to, are the one-shot decoding. */
  lemma PartwayDecodes(stream: seq<byte>, maxLen: nat, frames: seq<Frame>, pending: seq<byte>)
    requires Partway(stream, maxLen, frames, pending)
    ensures var d := Decode(pending, maxLen); Decode(stream, maxLen) == Decoded(frames + d.frames, d.rest)
    ensures !ParseOne(pending, maxLen).Got? ==> Decode(stream, maxLen) == Decoded(frames, pending)
  {
    hide EncodeAll, ParseOne;
    DecodeEncoded(frames, pending, maxLen);
    DecodeUnfold(pending, maxLen);
    assert frames + [] == frames;
  }

  /** Once an oversized length is met, every later extraction reports it again. */
  ghost predicate Sticky(answers: seq<Parse>) {
    forall i, j :: 0 <= i < j < |answers| && answers[i].TooLarge? ==> answers[j] == answers[i]
  }

  /** Answers given so far, and the one the pending bytes would get now. */
  ghost predicate Standing(answers: seq<Parse>, now: Parse) {
    && Sticky(answers)
    && forall i :: 0 <= i < |answers| && answers[i].TooLarge? ==> answers[i] == now
  }

  lemma StandingFeed(answers: seq<Parse>, pending: seq<byte>, data: seq<byte>, maxLen: nat)
    requires Standing(answers, ParseOne(pending, maxLen))
    ensures Standing(answers, ParseOne(pending + data, maxLen))
  {
    hide ParseOne;
    if !ParseOne(pending, maxLen).NeedMore? { ParseStable(pending, data, maxLen); }
  }

  lemma StandingNext(answers: seq<Parse>, r: Parse, now: Parse)
    requires Standing(answers, r) && (r.Got? || now == r)
    ensures Standing(answers + [r], now)
  {
  }

  /** Drive a decoder through any interleaving of feeds and extractions. */
  method Replay(maxLen: nat, ops: seq<Op>) returns (dec: FrameDecoder, frames: seq<Frame>, answers: seq<Parse>)
    ensures dec.Valid() && Partway(Fed(ops), maxLen, frames, dec.Pending())
    ensures var d := Decode(dec.Pending(), maxLen); Decode(Fed(ops), maxLen) == Decoded(frames + d.frames, d.rest)
    ensures !ParseOne(dec.Pending(), maxLen).Got? ==> Decode(Fed(ops), maxLen) == Decoded(frames, dec.Pending())
    ensures |answers| == Attempts(ops) && frames == Taken(answers)
    ensures Standing(answers, ParseOne(dec.Pending(), maxLen))
  {
    hide ParseOne, EncodeAll, Decode, Partway, Fed, Standing, Attempts, Taken, AllFit;
    dec := new FrameDecoder(maxLen);
    frames, answers := [], [];
    NothingFed(ops, maxLen);
    for i := 0 to |ops|
      invariant dec.Valid() && dec.maxLen == maxLen && fresh(dec)
      invariant Partway(Fed(ops[..i]), maxLen, frames, dec.Pending())
      invariant |answers| == Attempts(ops[..i]) && frames == Taken(answers)
      invariant Standing(answers, ParseOne(dec.Pending(), maxLen))
    {
      FedSnoc(ops, i);
      ghost var pending := dec.Pending();
      match ops[i] {
        case FeedBytes(bytes) =>
          StandingFeed(answers, pending, bytes, maxLen);
          PartwayFeed(Fed(ops[..i]), maxLen, frames, pending, bytes);
          dec.Feed(bytes);
        case Next =>
          assert Fed(ops[..i]) + [] == Fed(ops[..i]);
          var r := dec.NextFrame();
          StandingNext(answers, r, ParseOne(dec.Pending(), maxLen));
          TakenSnoc(answers, r);
          answers := answers + [r];
          if r.Got? {
            PartwayNext(Fed(ops[..i]), maxLen, frames, pending);
            frames := frames + [r.frame];
          }
      }
    }
    assert ops[..|ops|] == ops;
    PartwayDecodes(Fed(ops), maxLen, frames, dec.Pending());
  }

  lemma NothingFed(ops: seq<Op>, maxLen: nat)
    ensures Partway(Fed(ops[..0]), maxLen, [], []) && Standing([], ParseOne([], maxLen))
    ensures Attempts(ops[..0]) == 0 && Taken([]) == []
  {
    assert ops[..0] == [];
  }

  // ── The blocking reader ──

  /** What one `read` call does: hand over at most so many bytes, be interrupted, or fail. */
  datatype Event = Give(most: nat) | Interrupt | Break

  datatype ReadResult = Data(bytes: seq<byte>) | Interrupted | Failed

  /** A peer's byte stream read under a schedule of short reads and interrupts; once the schedule
      is used up, reads return whatever is asked and available. */
  class Reader {
    var stream: seq<byte>
    var script: seq<Event>

    constructor (stream: seq<byte>, script: seq<Event>)
      ensures this.stream == stream && this.script == script
    {
      this.stream, this.script := stream, script;
    }

    method Read(want: nat) returns (r: ReadResult)
      requires want > 0
      modifies this
      ensures r.Data? ==>
        && |r.bytes| <= want && old(stream) == r.bytes + stream
        && (r.bytes == [] <==> old(stream) == [])
      ensures !r.Data? ==> stream == old(stream) && |script| < |old(script)|
      ensures |script| <= |old(script)| && (Break !in old(script) ==> !r.Failed? && Break !in script)
    {
      var most := want;
      if script != [] {
        var e := script[0];
        script := script[1..];
        if e.Interrupt? { return Interrupted; }
        if e.Break? { return Failed; }
        most := Max(e.most, 1);
      }
      var n := Min(Min(most, want), |stream|);
      r := Data(stream[..n]);
      stream := stream[n..];
    }
  }

  datatype Filled = Full(bytes: seq<byte>) | Eof | Partial | Error

  /** `read_full_or_eof`: fill a buffer of `want` bytes. */
  method ReadFullOrEof(rd: Reader, want: nat) returns (r: Filled)
    modifies rd
    ensures r.Full? ==> |r.bytes| == want && old(rd.stream) == r.bytes + rd.stream
    ensures r.Eof? ==> want > 0 && old(rd.stream) == [] && rd.stream == []
    ensures r.Partial? ==> 0 < |old(rd.stream)| < want && rd.stream == []
    ensures Break !in old(rd.script) ==> !r.Error? && Break !in rd.script
  {
    var got: seq<byte> := [];
    while |got| < want
      invariant |got| <= want && old(rd.stream) == got + rd.stream
      invariant Break !in old(rd.script) ==> Break !in rd.script
      decreases want - |got| + |rd.script|
    {
      ghost var left := rd.stream;
      var e := rd.Read(want - |got|);
      match e
      case Interrupted =>
      case Failed => return Error;
      case Data(bytes) =>
        if bytes == [] { return if got == [] then Eof else Partial; }
        assert got + (bytes + rd.stream) == (got + bytes) + rd.stream;
        got := got + bytes;
    }
    r := Full(got);
  }

  datatype FrameRead = CleanEof | Read(frame: Frame) | TruncatedHeader | TruncatedPayload | InvalidData(len: nat) | ReadError

  /** What `read_frame` returns is the front of the stream, under any schedule of short reads and
      interrupts: a frame exactly when one is complete there. */
  method ReadFrame(rd: Reader, maxLen: nat) returns (r: FrameRead)
    modifies rd
    ensures r.Read? ==>
      && ParseOne(old(rd.stream), maxLen) == Got(r.frame)
      && rd.stream == After(old(rd.stream), r.frame)
    ensures r.CleanEof? ==> old(rd.stream) == []
    ensures r.TruncatedHeader? ==> 0 < |old(rd.stream)| < FRAME_HEADER_LEN
    ensures r.TruncatedPayload? ==> |old(rd.stream)| >= FRAME_HEADER_LEN && ParseOne(old(rd.stream), maxLen).NeedMore?
    ensures r.InvalidData? ==> ParseOne(old(rd.stream), maxLen) == TooLarge(r.len)
    ensures Break !in old(rd.script) ==> !r.ReadError? && Break !in rd.script
  {
    hide DecodeHeader;
    ghost var s := rd.stream;
    var h := ReadFullOrEof(rd, FRAME_HEADER_LEN);
    match h {
      case Eof => return CleanEof;
      case Partial => return TruncatedHeader;
      case Error => return ReadError;
      case Full(_) =>
    }
    var hdr := h.bytes;
    assert hdr == s[..FRAME_HEADER_LEN];
    ghost var s' := rd.stream;
    assert s' == s[FRAME_HEADER_LEN..];
    var (len, id) := DecodeHeader(hdr);
    if len > maxLen { return InvalidData(len); }
    var body := ReadFullOrEof(rd, len);
    match body {
      case Error => return ReadError;
      case Full(data) =>
        assert data == s'[..len] == s[FRAME_HEADER_LEN..FRAME_HEADER_LEN + len];
        assert rd.stream == s'[len..] == s[FRAME_HEADER_LEN + len..];
        r := Read(Frame(id, data));
      case _ => return TruncatedPayload;
    }
  }

  /** Reading frames until one is not returned gives the one-shot decoding, and the final verdict
      says how the remainder ends. */
  method ReadAll(rd: Reader, maxLen: nat) returns (frames: seq<Frame>, end: FrameRead)
    requires Break !in rd.script
    modifies rd
    ensures frames == Decode(old(rd.stream), maxLen).frames
    ensures !end.Read? && !end.ReadError?
    ensures var rest := Decode(old(rd.stream), maxLen).rest;
      && (end.CleanEof? <==> rest == [])
      && (end.InvalidData? <==> ParseOne(rest, maxLen).TooLarge?)
  {
    hide ParseOne, EncodeAll, Decode, Partway;
    frames := [];
    ghost var s := rd.stream;
    assert Partway(s, maxLen, [], s) by { StartOf(s, maxLen); }
    while true
      invariant Partway(s, maxLen, frames, rd.stream) && Break !in rd.script
      decreases |rd.stream|
    {
      ghost var left := rd.stream;
      end := ReadFrame(rd, maxLen);
      if !end.Read? {
        PartwayDecodes(s, maxLen, frames, left);
        ShortVerdict(left, maxLen);
        return;
      }
      PartwayNext(s, maxLen, frames, left);
      frames := frames + [end.frame];
    }
  }

  lemma StartOf(s: seq<byte>, maxLen: nat)
    ensures Partway(s, maxLen, [], s)
  {
    assert [] + s == s;
  }

  lemma ShortVerdict(s: seq<byte>, maxLen: nat)
    ensures |s| < FRAME_HEADER_LEN ==> ParseOne(s, maxLen).NeedMore?
  {
  }
}
