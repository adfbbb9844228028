/** The Unix-socket client's batches: written with `writev` and resumed after short writes. */
module UdsSend {
  import opened Words
  import opened Frames

  const SEND_BATCH_MAX: nat := 512
  const UIO_MAXIOV: nat := 1024

  // ── Vectored writes ──

  function Flatten(iov: seq<seq<byte>>): seq<byte> {
    if iov == [] then [] else Flatten(iov[..|iov| - 1]) + iov[|iov| - 1]
  }

  lemma FlattenSnoc(iov: seq<seq<byte>>, seg: seq<byte>)
    ensures Flatten(iov + [seg]) == Flatten(iov) + seg
  {
    assert (iov + [seg])[..|iov|] == iov;
  }

  /** What one `writev` call does. */
  datatype Event = Accept(most: nat) | Interrupt | AcceptNothing | Break

  datatype Written = Wrote(n: nat) | Interrupted | Failed

  /** The write side of a connected stream socket under a schedule of short writes, interrupts and
      errors; once the schedule is used up, writes are accepted whole. */
  class Socket {
    var wire: seq<byte>
    var script: seq<Event>

    constructor (script: seq<Event>)
      ensures wire == [] && this.script == script
    {
      wire, this.script := [], script;
    }

    /** The kernel takes 1 to 1024 segments and accepts at least one byte unless it says otherwise. */
    method WriteV(iov: seq<seq<byte>>) returns (r: Written)
      requires 1 <= |iov| <= UIO_MAXIOV && Flatten(iov) != []
      modifies this
      ensures r.Wrote? ==> r.n <= |Flatten(iov)| && wire == old(wire) + Flatten(iov)[..r.n]
      ensures !r.Wrote? ==> wire == old(wire)
      ensures |script| <= |old(script)| && (r.Interrupted? ==> |script| < |old(script)|)
      ensures Orderly(old(script)) ==> Orderly(script) && !r.Failed? && (r.Wrote? ==> r.n > 0)
    {
      var most := |Flatten(iov)|;
      if script != [] {
        var e := script[0];
        script := script[1..];
        match e {
          case Interrupt => return Interrupted;
          case Break => return Failed;
          case AcceptNothing => most := 0;
          case Accept(m) => most := Min(Max(m, 1), most);
        }
      }
      wire := wire + Flatten(iov)[..most];
      r := Wrote(most);
    }
  }

  /** A schedule without errors and without writes that accept nothing. */
  predicate Orderly(script: seq<Event>) { Break !in script && AcceptNothing !in script }

  predicate Sendable(msgs: seq<seq<byte>>) { forall m :: m in msgs ==> |m| < U32_SPAN }

  /** A partly built iovec list over the bytes `done`: what lies beyond `off` of them is listed. */
  ghost predicate Spelled(done: seq<byte>, off: nat, skip: nat, iov: seq<seq<byte>>) {
    && skip == Max(off - |done|, 0)
    && Flatten(iov) == done[Min(off, |done|)..]
  }

  /** One pass of the inner loop: skip a segment already sent, or list what is left of it. */
  method AddSegment(ghost done: seq<byte>, ghost off: nat, seg: seq<byte>, skip: nat, iov: seq<seq<byte>>)
    returns (skip': nat, iov': seq<seq<byte>>)
    requires Spelled(done, off, skip, iov)
    ensures Spelled(done + seg, off, skip', iov')
    ensures iov <= iov' && |iov'| <= |iov| + 1
  {
    hide Flatten;
    if skip >= |seg| {
      assert seg == [] ==> done + seg == done;
      assert skip > 0 ==> (done + seg)[Min(off, |done + seg|)..] == done[Min(off, |done|)..] == [];
      return skip - |seg|, iov;
    }
    FlattenSnoc(iov, seg[skip..]);
    assert (done + seg)[Min(off, |done + seg|)..] == done[Min(off, |done|)..] + seg[skip..];
    iov' := iov + [seg[skip..]];
    skip' := 0;
  }

  lemma EncodeAllTake(fs: seq<Frame>, i: nat)
    requires i < |fs|
    ensures EncodeAll(fs[..i + 1]) == EncodeAll(fs[..i]) + Encode(fs[i])
  {
    assert fs[..i + 1] == fs[..i] + [fs[i]];
    EncodeAllSnoc(fs[..i], fs[i]);
  }

  /** The iovec list rebuilt at byte offset `off` spells exactly the unsent suffix of the chunk and
      is one the kernel takes. */
  method BuildIov(id: u32, chunk: seq<seq<byte>>, hdrs: seq<seq<byte>>, off: nat) returns (iov: seq<seq<byte>>)
    requires |hdrs| == |chunk| <= SEND_BATCH_MAX && Sendable(chunk)
    requires forall i :: 0 <= i < |chunk| ==> hdrs[i] == EncodeHeader(|chunk[i]| % U32_SPAN, id)
    requires off < |EncodeAll(FramesOf(id, chunk))|
    ensures Flatten(iov) == EncodeAll(FramesOf(id, chunk))[off..]
    ensures 1 <= |iov| <= UIO_MAXIOV
  {
    hide EncodeAll, EncodeHeader, Sendable, Flatten, Spelled;
    ghost var fs := FramesOf(id, chunk);
    iov := [];
    var skip := off;
    StartSpelling(fs, off);
    for i := 0 to |chunk|
      invariant Spelled(EncodeAll(fs[..i]), off, skip, iov)
      invariant |iov| <= 2 * i
    {
      ghost var done := EncodeAll(fs[..i]);
      EncodeAllTake(fs, i);
      skip, iov := AddSegment(done, off, hdrs[i], skip, iov);
      skip, iov := AddSegment(done + hdrs[i], off, chunk[i], skip, iov);
      assert Encode(fs[i]) == hdrs[i] + chunk[i];
      assert done + Encode(fs[i]) == (done + hdrs[i]) + chunk[i];
    }
    assert fs[..|chunk|] == fs;
    DoneSpelling(EncodeAll(fs), off, skip, iov);
  }

  lemma StartSpelling(fs: seq<Frame>, off: nat)
    ensures Spelled(EncodeAll(fs[..0]), off, off, [])
  {
    assert fs[..0] == [];
  }

  lemma DoneSpelling(bytes: seq<byte>, off: nat, skip: nat, iov: seq<seq<byte>>)
    requires off < |bytes| && Spelled(bytes, off, skip, iov)
    ensures Flatten(iov) == bytes[off..] && iov != []
  {
  }

  datatype ChunkResult = ChunkSent | ChunkFailed | ChunkZero

  /** Write one chunk fully, resuming from the exact byte after short writes. */
  method WriteChunk(sock: Socket, id: u32, chunk: seq<seq<byte>>, hdrs: seq<seq<byte>>, total: nat)
    returns (r: ChunkResult)
    requires |hdrs| == |chunk| <= SEND_BATCH_MAX && Sendable(chunk)
    requires forall i :: 0 <= i < |chunk| ==> hdrs[i] == EncodeHeader(|chunk[i]| % U32_SPAN, id)
    requires total == |EncodeAll(FramesOf(id, chunk))|
    modifies sock
    ensures r.ChunkSent? ==> sock.wire == old(sock.wire) + EncodeAll(FramesOf(id, chunk))
    ensures !r.ChunkSent? ==> exists off | 0 <= off <= total :: sock.wire == old(sock.wire) + EncodeAll(FramesOf(id, chunk))[..off]
    ensures Orderly(old(sock.script)) ==> Orderly(sock.script) && r.ChunkSent?
  {
    hide EncodeAll, EncodeHeader, Sendable, Flatten, FramesOf, Orderly;
    ghost var bytes := EncodeAll(FramesOf(id, chunk));
    var off := 0;
    assert sock.wire + bytes[..0] == sock.wire;
    while off < total
      invariant off <= total && sock.wire == old(sock.wire) + bytes[..off]
      invariant Orderly(old(sock.script)) ==> Orderly(sock.script)
      decreases total - off + |sock.script|
    {
      var iov := BuildIov(id, chunk, hdrs, off);
      assert Flatten(iov) == bytes[off..];
      var e := sock.WriteV(iov);
      match e
      case Interrupted =>
      case Failed => return ChunkFailed;
      case Wrote(n) =>
        assert bytes[..off] + bytes[off..][..n] == bytes[..off + n];
        if n == 0 { return ChunkZero; }
        off := off + n;
    }
    assert bytes[..off] == bytes;
    r := ChunkSent;
  }

  datatype SendResult = Sent(n: nat) | InvalidInput | WriteZero | IoError

  /** Everything the frames of a batch put on the wire before index `k`. */
  ghost function WireUpTo(id: u32, msgs: seq<seq<byte>>, k: nat): seq<byte>
    requires k <= |msgs|
  {
    EncodeAll(FramesOf(id, msgs[..k]))
  }

  lemma WireNext(id: u32, msgs: seq<seq<byte>>, i: nat, j: nat)
    requires i <= j <= |msgs|
    ensures WireUpTo(id, msgs, j) == WireUpTo(id, msgs, i) + EncodeAll(FramesOf(id, msgs[i..j]))
  {
    hide EncodeAll, FramesOf;
    assert msgs[..j] == msgs[..i] + msgs[i..j];
    FramesOfConcat(id, msgs[..i], msgs[i..j]);
    EncodeAllConcat(FramesOf(id, msgs[..i]), FramesOf(id, msgs[i..j]));
  }

  /** The headers of a chunk and its length on the wire, or nothing if a message is too long. */
  method Headers(id: u32, chunk: seq<seq<byte>>) returns (ok: bool, hdrs: seq<seq<byte>>, total: nat)
    ensures ok <==> Sendable(chunk)
    ensures ok ==> |hdrs| == |chunk| && total == |EncodeAll(FramesOf(id, chunk))|
    ensures ok ==> forall i :: 0 <= i < |chunk| ==> hdrs[i] == EncodeHeader(|chunk[i]| % U32_SPAN, id)
  {
    hide EncodeAll, EncodeHeader;
    hdrs, total := [], 0;
    ghost var fs := FramesOf(id, chunk);
    assert fs[..0] == [] && EncodeAll([]) == [] by { EncodeAllUnfold([]); }
    for i := 0 to |chunk|
      invariant |hdrs| == i && total == |EncodeAll(fs[..i])|
      invariant forall k :: 0 <= k < i ==> |chunk[k]| < U32_SPAN && hdrs[k] == EncodeHeader(|chunk[k]| % U32_SPAN, id)
    {
      if |chunk[i]| >= U32_SPAN { return false, [], 0; }
      EncodeAllTake(fs, i);
      hdrs := hdrs + [EncodeHeader(|chunk[i]|, id)];
      total := total + FRAME_HEADER_LEN + |chunk[i]|;
    }
    assert fs[..|chunk|] == fs;
    ok := true;
  }

  /** For every schedule of short writes and interrupts the wire carries the concatenation of the
      single-frame encodings; a message too long for the length field stops the batch in front of
      its chunk; an error leaves a prefix of the batch on the wire. */
  method SendBatch(sock: Socket, id: u32, msgs: seq<seq<byte>>) returns (r: SendResult, ghost sent: nat)
    modifies sock
    ensures sent <= |msgs| && (sent % SEND_BATCH_MAX == 0 || sent == |msgs|) && Sendable(msgs[..sent])
    ensures r.Sent? ==> r.n == sent == |msgs| && sock.wire == old(sock.wire) + EncodeAll(FramesOf(id, msgs))
    ensures r.InvalidInput? ==>
      && sent < |msgs| && !Sendable(msgs[sent..Min(sent + SEND_BATCH_MAX, |msgs|)])
      && sock.wire == old(sock.wire) + WireUpTo(id, msgs, sent)
    ensures r.WriteZero? || r.IoError? ==>
      && sent < |msgs| && var next := Min(sent + SEND_BATCH_MAX, |msgs|);
      exists off | 0 <= off <= |EncodeAll(FramesOf(id, msgs[sent..next]))| ::
        sock.wire == old(sock.wire) + WireUpTo(id, msgs, sent) + EncodeAll(FramesOf(id, msgs[sent..next]))[..off]
    ensures Orderly(old(sock.script)) ==> (r.Sent? <==> Sendable(msgs)) && !r.WriteZero? && !r.IoError?
  {
    hide EncodeAll, EncodeHeader, FramesOf, Orderly;
    var idx := 0;
    NothingSent(id, msgs, sock.wire);
    while idx < |msgs|
      invariant idx <= |msgs| && (idx % SEND_BATCH_MAX == 0 || idx == |msgs|) && Sendable(msgs[..idx])
      invariant sock.wire == old(sock.wire) + WireUpTo(id, msgs, idx)
      invariant Orderly(old(sock.script)) ==> Orderly(sock.script)
    {
      var next := Min(idx + SEND_BATCH_MAX, |msgs|);
      var chunk := msgs[idx..next];
      WireNext(id, msgs, idx, next);
      assert msgs[..next] == msgs[..idx] + chunk;
      var ok, hdrs, total := Headers(id, chunk);
      if !ok { return InvalidInput, idx; }
      var c := WriteChunk(sock, id, chunk, hdrs, total);
      if c.ChunkFailed? { return IoError, idx; }
      if c.ChunkZero? { return WriteZero, idx; }
      assert old(sock.wire) + (WireUpTo(id, msgs, idx) + EncodeAll(FramesOf(id, chunk)))
          == old(sock.wire) + WireUpTo(id, msgs, idx) + EncodeAll(FramesOf(id, chunk));
      idx := idx + |chunk|;
    }
    assert msgs[..idx] == msgs;
    return Sent(|msgs|), idx;
  }

  lemma NothingSent(id: u32, msgs: seq<seq<byte>>, wire: seq<byte>)
    ensures wire + WireUpTo(id, msgs, 0) == wire && Sendable(msgs[..0])
  {
    assert FramesOf(id, msgs[..0]) == [];
  }
}
