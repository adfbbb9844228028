/** The framed-packet codec shared by every data-plane transport:
    `[len: u32 LE][traffic_id: u32 LE][len payload bytes]`. */
module Frames {
  import opened Words

  const FRAME_HEADER_LEN: nat := 8
  const DEFAULT_MAX_FRAME_LEN: nat := 16 * 1024 * 1024

  datatype Frame = Frame(id: u32, payload: seq<byte>)

  function EncodeHeader(len: u32, id: u32): (s: seq<byte>)
    ensures |s| == FRAME_HEADER_LEN
  {
    ToLe32(len) + ToLe32(id)
  }

  function DecodeHeader(hdr: seq<byte>): (u32, u32)
    requires |hdr| == FRAME_HEADER_LEN
  {
    (FromLe32(hdr[..4]), FromLe32(hdr[4..]))
  }

  /** Both fields are little-endian, the length first. */
  lemma HeaderBytes(len: u32, id: u32)
    ensures var h := EncodeHeader(len, id);
      && h[0] as int + 0x100 * h[1] as int + 0x1_0000 * h[2] as int + 0x100_0000 * h[3] as int == len
      && h[4] as int + 0x100 * h[5] as int + 0x1_0000 * h[6] as int + 0x100_0000 * h[7] as int == id
  {
    hide ToLe32;
    Le32Value(len);
    Le32Value(id);
  }

  /** Header and payload, with the length field truncated to 32 bits as in `data.len() as u32`. */
  function Encode(f: Frame): (s: seq<byte>)
    ensures |s| == FRAME_HEADER_LEN + |f.payload|
  {
    EncodeHeader(|f.payload| % U32_SPAN, f.id) + f.payload
  }

  function EncodeAll(fs: seq<Frame>): (s: seq<byte>) {
    if fs == [] then [] else Encode(fs[0]) + EncodeAll(fs[1..])
  }

  predicate Fits(f: Frame, maxLen: nat) { |f.payload| <= maxLen && |f.payload| < U32_SPAN }

  ghost predicate AllFit(fs: seq<Frame>, maxLen: nat) { forall f :: f in fs ==> Fits(f, maxLen) }

  /** The frames of a batch of messages. */
  function FramesOf(id: u32, msgs: seq<seq<byte>>): (fs: seq<Frame>)
    ensures |fs| == |msgs|
  {
    seq(|msgs|, i requires 0 <= i < |msgs| => Frame(id, msgs[i]))
  }

  lemma HeaderRoundTrip(len: u32, id: u32)
    ensures DecodeHeader(EncodeHeader(len, id)) == (len, id)
  {
    Le32RoundTrip(len);
    Le32RoundTrip(id);
    var h := EncodeHeader(len, id);
    assert h[..4] == ToLe32(len) && h[4..] == ToLe32(id);
  }

  lemma HeaderCanonical(hdr: seq<byte>)
    requires |hdr| == FRAME_HEADER_LEN
    ensures EncodeHeader(DecodeHeader(hdr).0, DecodeHeader(hdr).1) == hdr
  {
    Le32Canonical(hdr[..4]);
    Le32Canonical(hdr[4..]);
    assert hdr == hdr[..4] + hdr[4..];
  }

  lemma HeaderOfEncoded(f: Frame)
    requires |f.payload| < U32_SPAN
    ensures DecodeHeader(Encode(f)[..FRAME_HEADER_LEN]) == (|f.payload|, f.id)
  {
    hide EncodeHeader, DecodeHeader;
    assert |f.payload| % U32_SPAN == |f.payload|;
    assert Encode(f)[..FRAME_HEADER_LEN] == EncodeHeader(|f.payload|, f.id);
    HeaderRoundTrip(|f.payload|, f.id);
  }

  lemma EncodeAllUnfold(fs: seq<Frame>)
    ensures fs == [] ==> EncodeAll(fs) == []
    ensures fs != [] ==> EncodeAll(fs) == Encode(fs[0]) + EncodeAll(fs[1..])
  {
  }

  lemma {:induction false} EncodeAllConcat(a: seq<Frame>, b: seq<Frame>)
    ensures EncodeAll(a + b) == EncodeAll(a) + EncodeAll(b)
  {
    hide EncodeAll, Encode;
    EncodeAllUnfold(a);
    EncodeAllUnfold(a + b);
    if a == [] {
      assert a + b == b;
    } else {
      EncodeAllConcat(a[1..], b);
      assert (a + b)[1..] == a[1..] + b;
      assert Encode(a[0]) + (EncodeAll(a[1..]) + EncodeAll(b)) == (Encode(a[0]) + EncodeAll(a[1..])) + EncodeAll(b);
    }
  }

  lemma EncodeAllSnoc(fs: seq<Frame>, f: Frame)
    ensures EncodeAll(fs + [f]) == EncodeAll(fs) + Encode(f)
  {
    EncodeAllConcat(fs, [f]);
    assert EncodeAll([f]) == Encode(f) + EncodeAll([]);
  }

  lemma FramesOfConcat(id: u32, a: seq<seq<byte>>, b: seq<seq<byte>>)
    ensures FramesOf(id, a + b) == FramesOf(id, a) + FramesOf(id, b)
  {
  }

  // ── Parsing one frame off the front of a byte string ──

  datatype Parse = NeedMore | TooLarge(len: nat) | Got(frame: Frame)

  function ParseOne(s: seq<byte>, maxLen: nat): (p: Parse)
    ensures p.Got? ==> |s| >= FRAME_HEADER_LEN + |p.frame.payload| && Fits(p.frame, maxLen)
  {
    if |s| < FRAME_HEADER_LEN then NeedMore
    else
      var (len, id) := DecodeHeader(s[..FRAME_HEADER_LEN]);
      if len > maxLen then TooLarge(len)
      else if |s| < FRAME_HEADER_LEN + len then NeedMore
      else Got(Frame(id, s[FRAME_HEADER_LEN..FRAME_HEADER_LEN + len]))
  }

  /** What is left of `s` after the frame `f` at its front. */
  function After(s: seq<byte>, f: Frame): seq<byte>
    requires |s| >= FRAME_HEADER_LEN + |f.payload|
  {
    s[FRAME_HEADER_LEN + |f.payload|..]
  }

  /** An encoded frame at the front of a stream is parsed back, whatever follows. */
  lemma ParseEncoded(f: Frame, t: seq<byte>, maxLen: nat)
    requires Fits(f, maxLen)
    ensures ParseOne(Encode(f) + t, maxLen) == Got(f)
    ensures After(Encode(f) + t, f) == t
  {
    var s := Encode(f) + t;
    assert |f.payload| % U32_SPAN == |f.payload|;
    HeaderRoundTrip(|f.payload|, f.id);
    assert s[..FRAME_HEADER_LEN] == EncodeHeader(|f.payload|, f.id);
    assert s[FRAME_HEADER_LEN..FRAME_HEADER_LEN + |f.payload|] == f.payload;
  }

  /** A parsed frame re-encodes to exactly the bytes it was parsed from. */
  lemma ParsedReencodes(s: seq<byte>, maxLen: nat)
    requires ParseOne(s, maxLen).Got?
    ensures var f := ParseOne(s, maxLen).frame; s == Encode(f) + After(s, f)
  {
    var f := ParseOne(s, maxLen).frame;
    HeaderCanonical(s[..FRAME_HEADER_LEN]);
    assert |f.payload| % U32_SPAN == |f.payload|;
    assert s == s[..FRAME_HEADER_LEN] + f.payload + After(s, f);
  }

  /** A verdict, once reached, does not change as more bytes arrive. */
  lemma ParseStable(s: seq<byte>, t: seq<byte>, maxLen: nat)
    requires !ParseOne(s, maxLen).NeedMore?
    ensures ParseOne(s + t, maxLen) == ParseOne(s, maxLen)
  {
    assert (s + t)[..FRAME_HEADER_LEN] == s[..FRAME_HEADER_LEN];
    match ParseOne(s, maxLen)
    case Got(f) =>
      var n := FRAME_HEADER_LEN + |f.payload|;
      assert (s + t)[FRAME_HEADER_LEN..n] == s[FRAME_HEADER_LEN..n];
    case TooLarge(_) =>
  }

  /** At most `maxLen + 7` bytes can wait for a frame to complete. */
  lemma NeedMoreIsShort(s: seq<byte>, maxLen: nat)
    requires ParseOne(s, maxLen).NeedMore?
    ensures |s| <= FRAME_HEADER_LEN - 1 + maxLen
  {
  }

  // ── One-shot decoding of a whole byte string ──

  datatype Decoded = Decoded(frames: seq<Frame>, rest: seq<byte>)

  function Decode(s: seq<byte>, maxLen: nat): (d: Decoded)
    ensures !ParseOne(d.rest, maxLen).Got?
    decreases |s|
  {
    match ParseOne(s, maxLen)
    case Got(f) =>
      var d := Decode(After(s, f), maxLen);
      Decoded([f] + d.frames, d.rest)
    case _ => Decoded([], s)
  }

  lemma DecodeUnfold(s: seq<byte>, maxLen: nat)
    ensures !ParseOne(s, maxLen).Got? ==> Decode(s, maxLen) == Decoded([], s)
    ensures ParseOne(s, maxLen).Got? ==>
              var f := ParseOne(s, maxLen).frame; var d := Decode(After(s, f), maxLen);
              Decode(s, maxLen) == Decoded([f] + d.frames, d.rest)
  {
  }

  /** Decoding loses nothing: the frames and the remainder spell the input. */
  lemma {:induction false} DecodeSpellsInput(s: seq<byte>, maxLen: nat)
    ensures EncodeAll(Decode(s, maxLen).frames) + Decode(s, maxLen).rest == s
    ensures AllFit(Decode(s, maxLen).frames, maxLen)
    decreases |s|
  {
    hide EncodeAll, Encode, Decode, ParseOne;
    DecodeUnfold(s, maxLen);
    var d := Decode(s, maxLen);
    EncodeAllUnfold(d.frames);
    if ParseOne(s, maxLen).Got? {
      var f := ParseOne(s, maxLen).frame;
      var t := After(s, f);
      var e := Decode(t, maxLen);
      DecodeSpellsInput(t, maxLen);
      ParsedReencodes(s, maxLen);
      assert d.frames[1..] == e.frames;
      assert (Encode(f) + EncodeAll(e.frames)) + e.rest == Encode(f) + (EncodeAll(e.frames) + e.rest);
    } else {
      assert [] + s == s;
    }
  }

  lemma DecodeCons(f: Frame, t: seq<byte>, maxLen: nat)
    requires Fits(f, maxLen)
    ensures var d := Decode(t, maxLen);
            Decode(Encode(f) + t, maxLen) == Decoded([f] + d.frames, d.rest)
  {
    hide Encode, ParseOne;
    ParseEncoded(f, t, maxLen);
    DecodeUnfold(Encode(f) + t, maxLen);
  }

  /** Frames in front of a stream come back first, in order, followed by the decoding of the rest. */
  lemma {:induction false} DecodeEncoded(fs: seq<Frame>, t: seq<byte>, maxLen: nat)
    requires AllFit(fs, maxLen)
    ensures Decode(EncodeAll(fs) + t, maxLen)
         == Decoded(fs + Decode(t, maxLen).frames, Decode(t, maxLen).rest)
  {
    hide EncodeAll, Encode, Decode, ParseOne;
    EncodeAllUnfold(fs);
    var d := Decode(t, maxLen);
    if fs == [] {
      assert [] + t == t && [] + d.frames == d.frames;
    } else {
      var u := EncodeAll(fs[1..]) + t;
      assert EncodeAll(fs) + t == Encode(fs[0]) + u;
      DecodeCons(fs[0], u, maxLen);
      DecodeEncoded(fs[1..], t, maxLen);
      assert [fs[0]] + (fs[1..] + d.frames) == fs + d.frames;
    }
  }

  /** Chunk independence: decoding a prefix and then the remainder with the later bytes
      gives the one-shot decoding. */
  lemma DecodeInTwoSteps(s: seq<byte>, t: seq<byte>, maxLen: nat)
    ensures var d := Decode(s, maxLen); var e := Decode(d.rest + t, maxLen);
            Decode(s + t, maxLen) == Decoded(d.frames + e.frames, e.rest)
  {
    hide EncodeAll, Decode, ParseOne;
    var d := Decode(s, maxLen);
    DecodeSpellsInput(s, maxLen);
    assert s + t == EncodeAll(d.frames) + (d.rest + t);
    DecodeEncoded(d.frames, d.rest + t, maxLen);
  }

  /** An oversized length at the front of the remainder stops decoding for good. */
  lemma TooLargeIsSticky(s: seq<byte>, t: seq<byte>, maxLen: nat)
    requires ParseOne(Decode(s, maxLen).rest, maxLen).TooLarge?
    ensures Decode(s + t, maxLen).frames == Decode(s, maxLen).frames
    ensures ParseOne(Decode(s + t, maxLen).rest, maxLen) == ParseOne(Decode(s, maxLen).rest, maxLen)
  {
    var d := Decode(s, maxLen);
    DecodeInTwoSteps(s, t, maxLen);
    ParseStable(d.rest, t, maxLen);
    assert d.frames + [] == d.frames;
  }

  /** The encoding of a frame sequence determines the sequence. */
  lemma EncodeAllInjective(a: seq<Frame>, b: seq<Frame>, maxLen: nat)
    requires AllFit(a, maxLen) && AllFit(b, maxLen) && EncodeAll(a) == EncodeAll(b)
    ensures a == b
  {
    DecodeEncoded(a, [], maxLen);
    DecodeEncoded(b, [], maxLen);
    assert EncodeAll(a) + [] == EncodeAll(a) && EncodeAll(b) + [] == EncodeAll(b);
    assert a + [] == a && b + [] == b;
  }
}
