/** The raw app protocol: datagrams carried over a byte stream behind a 4-byte length. */
module RawSession {
  import opened Words

  const PREFIX_LEN: nat := 4
  const MAX_RAW_DATAGRAM_LEN: nat := 65_535

  // ── One-shot splitting of a byte string ──

  function Wire(d: seq<byte>): (s: seq<byte>)
    requires |d| < U32_SPAN
    ensures |s| == PREFIX_LEN + |d|
  {
    ToLe32(|d|) + d
  }

  /** A little-endian length, then the datagram. */
  lemma WireBytes(d: seq<byte>)
    requires |d| < U32_SPAN
    ensures var w := Wire(d); w[0] as int + 0x100 * w[1] as int + 0x1_0000 * w[2] as int + 0x100_0000 * w[3] as int == |d| && w[4..] == d
  {
    hide ToLe32;
    Le32Value(|d|);
  }

  predicate AllLegal(ds: seq<seq<byte>>) { forall i :: 0 <= i < |ds| ==> |ds[i]| <= MAX_RAW_DATAGRAM_LEN }

  function WireAll(ds: seq<seq<byte>>): seq<byte>
    requires AllLegal(ds)
  {
    if ds == [] then [] else Wire(ds[0]) + WireAll(ds[1..])
  }

  datatype Front = Incomplete | Oversized(len: nat) | Datagram(d: seq<byte>)

  function FrontOf(s: seq<byte>): (r: Front)
    ensures r.Datagram? ==> |s| >= PREFIX_LEN + |r.d| && |r.d| <= MAX_RAW_DATAGRAM_LEN
  {
    if |s| < PREFIX_LEN then Incomplete
    else
      var len := FromLe32(s[..PREFIX_LEN]);
      if len > MAX_RAW_DATAGRAM_LEN then Oversized(len)
      else if |s| < PREFIX_LEN + len then Incomplete
      else Datagram(s[PREFIX_LEN..PREFIX_LEN + len])
  }

  datatype Pieces = Pieces(datagrams: seq<seq<byte>>, rest: seq<byte>)

  function Split(s: seq<byte>): (p: Pieces)
    ensures !FrontOf(p.rest).Datagram?
    ensures AllLegal(p.datagrams)
    decreases |s|
  {
    match FrontOf(s)
    case Datagram(d) => var p := Split(s[PREFIX_LEN + |d|..]); Pieces([d] + p.datagrams, p.rest)
    case _ => Pieces([], s)
  }

  lemma SplitUnfold(s: seq<byte>)
    ensures FrontOf(s).Datagram? ==>
              var d := FrontOf(s).d; var p := Split(s[PREFIX_LEN + |d|..]);
              Split(s) == Pieces([d] + p.datagrams, p.rest)
    ensures !FrontOf(s).Datagram? ==> Split(s) == Pieces([], s)
  {
  }

  lemma FrontWire(d: seq<byte>, t: seq<byte>)
    requires |d| <= MAX_RAW_DATAGRAM_LEN
    ensures FrontOf(Wire(d) + t) == Datagram(d) && (Wire(d) + t)[PREFIX_LEN + |d|..] == t
  {
    var s := Wire(d) + t;
    assert s[..PREFIX_LEN] == ToLe32(|d|);
    Le32RoundTrip(|d|);
    assert s[PREFIX_LEN..PREFIX_LEN + |d|] == d;
  }

  lemma FrontRewires(s: seq<byte>)
    requires FrontOf(s).Datagram?
    ensures var d := FrontOf(s).d; s == Wire(d) + s[PREFIX_LEN + |d|..]
  {
    Le32Canonical(s[..PREFIX_LEN]);
    var d := FrontOf(s).d;
    assert s == s[..PREFIX_LEN] + d + s[PREFIX_LEN + |d|..];
  }

  lemma FrontStable(s: seq<byte>, t: seq<byte>)
    requires !FrontOf(s).Incomplete?
    ensures FrontOf(s + t) == FrontOf(s)
  {
    assert (s + t)[..PREFIX_LEN] == s[..PREFIX_LEN];
    if FrontOf(s).Datagram? {
      var n := PREFIX_LEN + |FrontOf(s).d|;
      assert (s + t)[PREFIX_LEN..n] == s[PREFIX_LEN..n];
    }
  }

  /** Splitting loses nothing. */
  lemma {:induction false} SplitSpells(s: seq<byte>)
    ensures WireAll(Split(s).datagrams) + Split(s).rest == s
    decreases |s|
  {
    hide FrontOf, Wire, Split;
    SplitUnfold(s);
    if FrontOf(s).Datagram? {
      var d := FrontOf(s).d;
      var t := s[PREFIX_LEN + |d|..];
      var p := Split(t);
      FrontRewires(s);
      SplitSpells(t);
      assert ([d] + p.datagrams)[1..] == p.datagrams;
      assert (Wire(d) + WireAll(p.datagrams)) + p.rest == Wire(d) + (WireAll(p.datagrams) + p.rest);
    } else {
      assert [] + s == s;
    }
  }

  /** Framed datagrams come back first, in order, whatever follows them. */
  lemma {:induction false} SplitWired(ds: seq<seq<byte>>, t: seq<byte>)
    requires AllLegal(ds)
    ensures Split(WireAll(ds) + t) == Pieces(ds + Split(t).datagrams, Split(t).rest)
  {
    hide FrontOf, Wire, Split;
    var p := Split(t);
    if ds == [] {
      assert [] + t == t && [] + p.datagrams == p.datagrams;
    } else {
      var u := WireAll(ds[1..]) + t;
      assert WireAll(ds) + t == Wire(ds[0]) + u;
      FrontWire(ds[0], u);
      SplitUnfold(Wire(ds[0]) + u);
      SplitWired(ds[1..], t);
      assert [ds[0]] + (ds[1..] + p.datagrams) == ds + p.datagrams;
    }
  }

  lemma SplitInTwoSteps(s: seq<byte>, t: seq<byte>)
    ensures var p := Split(s); var q := Split(p.rest + t);
            Split(s + t) == Pieces(p.datagrams + q.datagrams, q.rest)
  {
    hide Split, WireAll;
    var p := Split(s);
    SplitSpells(s);
    assert s + t == WireAll(p.datagrams) + (p.rest + t);
    SplitWired(p.datagrams, p.rest + t);
  }

  /** An oversized length at the front of the remainder is there for good. */
  lemma OversizedIsSticky(s: seq<byte>, t: seq<byte>)
    requires FrontOf(Split(s).rest).Oversized?
    ensures Split(s + t).datagrams == Split(s).datagrams
    ensures FrontOf(Split(s + t).rest) == FrontOf(Split(s).rest)
  {
    hide FrontOf;
    SplitInTwoSteps(s, t);
    FrontStable(Split(s).rest, t);
    SplitUnfold(Split(s).rest + t);
  }

  // ── The session ──

  datatype Deframed = Ok(datagrams: seq<seq<byte>>) | InvalidData(len: nat)

  class Session {
    var pending: seq<byte>

    constructor ()
      ensures pending == []
    {
      pending := [];
    }

    /** Appends the framed datagram, unless its length does not fit the prefix. */
    method FrameDatagram(payload: seq<byte>, out: seq<byte>) returns (ok: bool, out': seq<byte>)
      ensures ok <==> |payload| < U32_SPAN
      ensures out' == if ok then out + Wire(payload) else out
    {
      if |payload| >= U32_SPAN { return false, out; }
      out' := out + ToLe32(|payload|);
      out' := out' + payload;
      ok := true;
    }

    /** One call splits everything pending. On an oversized length the call reports it and keeps
        it pending; datagrams split earlier in the same call are dropped. */
    method Deframe(data: seq<byte>) returns (r: Deframed)
      modifies this
      ensures var p := Split(old(pending) + data);
        && pending == p.rest
        && r == match FrontOf(p.rest) { case Oversized(len) => InvalidData(len) case _ => Ok(p.datagrams) }
    {
      hide Split, Wire;
      pending := pending + data;
      ghost var s := pending;
      var datagrams: seq<seq<byte>> := [];
      while |pending| >= PREFIX_LEN
        invariant Split(s) == Pieces(datagrams + Split(pending).datagrams, Split(pending).rest)
      {
        SplitUnfold(pending);
        var len := FromLe32(pending[..PREFIX_LEN]);
        if len > MAX_RAW_DATAGRAM_LEN { return InvalidData(len); }
        if |pending| < PREFIX_LEN + len { break; }
        var d := pending[PREFIX_LEN..PREFIX_LEN + len];
        ghost var p := Split(pending[PREFIX_LEN + len..]);
        assert datagrams + ([d] + p.datagrams) == (datagrams + [d]) + p.datagrams;
        datagrams := datagrams + [d];
        pending := pending[PREFIX_LEN + len..];
      }
      SplitUnfold(pending);
      assert datagrams + [] == datagrams;
      r := Ok(datagrams);
    }
  }

  // ── Whole streams ──

  function Concat(chunks: seq<seq<byte>>): seq<byte> {
    if chunks == [] then [] else Concat(chunks[..|chunks| - 1]) + chunks[|chunks| - 1]
  }

  lemma ConcatSnoc(chunks: seq<seq<byte>>, i: nat)
    requires i < |chunks|
    ensures Concat(chunks[..i + 1]) == Concat(chunks[..i]) + chunks[i]
  {
    assert chunks[..i + 1][..i] == chunks[..i];
  }

  /** Chunk independence up to the first error. `delivered` collects what every call returned;
      `good` counts the calls before the first error. With no error the datagrams are those of the
      whole stream; an error is met in every chunking of the stream or in none; the datagrams that
      a first failing call had already split are the only ones missing. */
  method DeframeAll(chunks: seq<seq<byte>>) returns (delivered: seq<seq<byte>>, good: nat)
    ensures good <= |chunks|
    ensures delivered == Split(Concat(chunks[..good])).datagrams
    ensures good == |chunks| <==> !FrontOf(Split(Concat(chunks)).rest).Oversized?
    ensures good < |chunks| ==> FrontOf(Split(Concat(chunks[..good + 1])).rest) == FrontOf(Split(Concat(chunks)).rest)
  {
    hide Split, FrontOf, Concat;
    var session := new Session();
    delivered, good := [], |chunks|;
    EmptyStream(chunks);
    for i := 0 to |chunks|
      invariant session.pending == Split(Concat(chunks[..i])).rest
      invariant good <= |chunks| && (good < |chunks| ==> good < i)
      invariant delivered == Split(Concat(chunks[..Min(i, good)])).datagrams
      invariant good == |chunks| <==> !FrontOf(Split(Concat(chunks[..i])).rest).Oversized?
      invariant good < |chunks| ==>
        FrontOf(Split(Concat(chunks[..good + 1])).rest) == FrontOf(Split(Concat(chunks[..i])).rest)
    {
      ghost var s := Concat(chunks[..i]);
      ConcatSnoc(chunks, i);
      SplitInTwoSteps(s, chunks[i]);
      if FrontOf(Split(s).rest).Oversized? { OversizedIsSticky(s, chunks[i]); }
      var r := session.Deframe(chunks[i]);
      match r
      case Ok(datagrams) => delivered := delivered + datagrams;
      case InvalidData(_) => if good == |chunks| { good := i; }
    }
    assert chunks[..|chunks|] == chunks;
  }

  lemma EmptyStream(chunks: seq<seq<byte>>)
    ensures Concat(chunks[..0]) == [] && Split([]) == Pieces([], []) && !FrontOf([]).Oversized?
  {
    assert chunks[..0] == [];
  }

  /** A failing call loses no datagram exactly when the oversized length is the first length the
      call looks at. */
  lemma NothingLostExactly(s: seq<byte>)
    requires FrontOf(Split(s).rest).Oversized?
    ensures Split(s).datagrams == [] <==> FrontOf(s).Oversized?
  {
    SplitUnfold(s);
  }

  lemma {:induction false} ConcatSplit(chunks: seq<seq<byte>>, k: nat)
    requires k <= |chunks|
    ensures Concat(chunks) == Concat(chunks[..k]) + Concat(chunks[k..])
  {
    if k == |chunks| {
      assert chunks[..k] == chunks && chunks[k..] == [];
    } else {
      var n := |chunks| - 1;
      ConcatSplit(chunks[..n], k);
      assert chunks[..n][..k] == chunks[..k] && chunks[..n][k..] == chunks[k..][..n - k];
      assert chunks[k..][n - k] == chunks[n];
    }
  }

  /** The session's deliveries over a chunked stream are those of the whole stream exactly when no
      call fails, or the first failing call meets the oversized length before any other. */
  lemma ChunkingLosesNothingExactly(chunks: seq<seq<byte>>, good: nat)
    requires good < |chunks| && FrontOf(Split(Concat(chunks[..good + 1])).rest).Oversized?
    ensures Split(Concat(chunks[..good])).datagrams == Split(Concat(chunks)).datagrams <==>
              FrontOf(Split(Concat(chunks[..good])).rest + chunks[good]).Oversized?
  {
    hide Split, FrontOf, Concat;
    var s, t := Concat(chunks[..good]), chunks[good];
    ConcatSnoc(chunks, good);
    ConcatSplit(chunks, good + 1);
    OversizedIsSticky(s + t, Concat(chunks[good + 1..]));
    SplitInTwoSteps(s, t);
    NothingLostExactly(Split(s).rest + t);
    var p, q := Split(s), Split(Split(s).rest + t);
    assert p.datagrams + q.datagrams == p.datagrams <==> q.datagrams == [];
  }

  /** Two chunkings of one stream that deliver different datagrams: an empty datagram followed by
      an oversized length, in one call or in two. */
  lemma ErrorDropsDatagrams()
    ensures var good, bad := Wire([]), [0, 0, 1, 0];
            && Split(good).datagrams == [[]] && !FrontOf(Split(good).rest).Oversized?
            && FrontOf(Split(good + bad).rest) == Oversized(65_536)
            && Split(good + bad).datagrams == [[]] != Split([]).datagrams
  {
    var good, bad: seq<byte> := Wire([]), [0, 0, 1, 0];
    FrontWire([], []);
    assert good + [] == good;
    FrontWire([], bad);
    assert bad[..PREFIX_LEN] == bad;
    assert FrontOf(bad) == Oversized(65_536);
  }
}
