/** Which frames one zero-copy drain takes, and how many bytes of small frames it coalesces. */
module DrainPlan {
  import opened Words
  import opened Frames

  const RELAY_BUF_SIZE: nat := 4 * 1024 * 1024
  const ZC_DIRECT_THRESHOLD: nat := 512 * 1024
  const ZC_MAX_DIRECT: nat := 64

  function WireLen(f: Frame): nat { FRAME_HEADER_LEN + |f.payload| }

  /** Written straight from its slot. */
  predicate IsLarge(f: Frame) { WireLen(f) >= ZC_DIRECT_THRESHOLD }

  /** Where a drain stands after some frames: bytes in its buffer and direct writes made, or stopped. */
  datatype Plan = Stopped | Going(batch: nat, direct: nat)

  function Next(p: Plan, f: Frame): Plan {
    if p.Stopped? || p.direct >= ZC_MAX_DIRECT then Stopped
    else if IsLarge(f) then Going(0, p.direct + 1)
    else if p.batch + WireLen(f) > RELAY_BUF_SIZE then Stopped
    else Going(p.batch + WireLen(f), p.direct)
  }

  function PlanFor(t: seq<Frame>): Plan {
    if t == [] then Going(0, 0) else Next(PlanFor(t[..|t| - 1]), t[|t| - 1])
  }

  /** Of the frames `w`, a drain takes the first `n`: as many as its limits allow. */
  predicate Takes(w: seq<Frame>, n: nat) {
    n <= |w| && PlanFor(w[..n]).Going? && (n < |w| ==> PlanFor(w[..n + 1]).Stopped?)
  }

  // ── A drain under way, over a history of frames that may still grow ──

  ghost predicate OnPlan(fs: seq<Frame>, from: nat, c: nat, batch: nat, direct: nat) {
    from <= c <= |fs| && PlanFor(fs[from..c]) == Going(batch, direct)
  }

  lemma OnPlanStart(fs: seq<Frame>, c: nat)
    requires c <= |fs|
    ensures OnPlan(fs, c, c, 0, 0)
  {
    assert fs[c..c] == [];
  }

  lemma OnPlanGrows(fs: seq<Frame>, fs': seq<Frame>, from: nat, c: nat, batch: nat, direct: nat)
    requires OnPlan(fs, from, c, batch, direct) && fs <= fs'
    ensures OnPlan(fs', from, c, batch, direct)
  {
    assert fs'[from..c] == fs[from..c];
  }

  lemma OnPlanNext(fs: seq<Frame>, from: nat, c: nat, batch: nat, direct: nat)
    requires OnPlan(fs, from, c, batch, direct) && c < |fs|
    ensures PlanFor(fs[from..c + 1]) == Next(Going(batch, direct), fs[c])
  {
    assert fs[from..c + 1][..c - from] == fs[from..c];
  }

  lemma OnPlanEnds(fs: seq<Frame>, from: nat, c: nat, batch: nat, direct: nat)
    requires OnPlan(fs, from, c, batch, direct)
    requires c == |fs| || Next(Going(batch, direct), fs[c]).Stopped?
    ensures Takes(fs[from..], c - from)
  {
    assert fs[from..][..c - from] == fs[from..c];
    if c < |fs| {
      OnPlanNext(fs, from, c, batch, direct);
      assert fs[from..][..c - from + 1] == fs[from..c + 1];
    }
  }

  // ── Coalesced bytes ──

  /** Bytes of the small frames. */
  function SmallBytes(t: seq<Frame>): nat {
    if t == [] then 0 else SmallBytes(t[..|t| - 1]) + if IsLarge(t[|t| - 1]) then 0 else WireLen(t[|t| - 1])
  }

  function Larges(t: seq<Frame>): nat {
    if t == [] then 0 else Larges(t[..|t| - 1]) + if IsLarge(t[|t| - 1]) then 1 else 0
  }

  /** Bytes of the small frames after the last large one. */
  function Recent(t: seq<Frame>): nat {
    if t == [] then 0
    else if IsLarge(t[|t| - 1]) then 0
    else Recent(t[..|t| - 1]) + WireLen(t[|t| - 1])
  }

  /** A plan that goes on holds the recent small frames and has written every large one. */
  lemma {:induction false} GoingIs(t: seq<Frame>)
    requires PlanFor(t).Going?
    ensures PlanFor(t) == Going(Recent(t), Larges(t))
    ensures Recent(t) <= RELAY_BUF_SIZE && (t != [] ==> Larges(t[..|t| - 1]) < ZC_MAX_DIRECT)
  {
    if t != [] { GoingIs(t[..|t| - 1]); }
  }

  /** As long as the small frames fit the buffer together, only the direct writes can stop a drain. */
  lemma {:induction false} SmallGoes(t: seq<Frame>)
    requires SmallBytes(t) <= RELAY_BUF_SIZE && (t != [] ==> Larges(t[..|t| - 1]) < ZC_MAX_DIRECT)
    ensures PlanFor(t).Going? && Recent(t) <= SmallBytes(t)
  {
    if t != [] {
      var rest := t[..|t| - 1];
      if rest != [] { assert Larges(rest[..|rest| - 1]) <= Larges(rest); }
      SmallGoes(rest);
      GoingIs(rest);
    }
  }

  lemma {:induction false} PrefixGoes(t: seq<Frame>, i: nat)
    requires i <= |t| && PlanFor(t).Going?
    ensures PlanFor(t[..i]).Going?
  {
    if i == |t| {
      assert t[..i] == t;
    } else {
      PrefixGoes(t[..|t| - 1], i);
      assert t[..|t| - 1][..i] == t[..i];
    }
  }

  lemma {:induction false} SmallGrows(t: seq<Frame>, i: nat)
    requires i <= |t|
    ensures SmallBytes(t[..i]) <= SmallBytes(t)
  {
    if i == |t| {
      assert t[..i] == t;
    } else {
      SmallGrows(t[..|t| - 1], i);
      assert t[..|t| - 1][..i] == t[..i];
    }
  }

  /** Frame `k` is the one that brings the small frames past the buffer size, and the drain still takes
      it: it has direct writes left, and room beside the small frames since the last large one. */
  predicate Overruns(w: seq<Frame>, k: nat)
    requires k < |w|
  {
    && SmallBytes(w[..k]) <= RELAY_BUF_SIZE < SmallBytes(w[..k]) + WireLen(w[k]) && !IsLarge(w[k])
    && Larges(w[..k]) < ZC_MAX_DIRECT
    && Recent(w[..k]) + WireLen(w[k]) <= RELAY_BUF_SIZE
  }

  lemma {:induction false} FirstPast(t: seq<Frame>) returns (k: nat)
    requires SmallBytes(t) > RELAY_BUF_SIZE
    ensures k < |t| && !IsLarge(t[k]) && SmallBytes(t[..k]) <= RELAY_BUF_SIZE < SmallBytes(t[..k]) + WireLen(t[k])
  {
    var n := |t| - 1;
    if SmallBytes(t[..n]) > RELAY_BUF_SIZE {
      k := FirstPast(t[..n]);
      assert t[..n][..k] == t[..k];
    } else {
      k := n;
    }
  }

  lemma OverrunIsTaken(w: seq<Frame>, n: nat, k: nat)
    requires Takes(w, n) && k < |w| && Overruns(w, k)
    ensures SmallBytes(w[..n]) > RELAY_BUF_SIZE
  {
    hide PlanFor, SmallBytes, Larges, Recent;
    LargesGrow(w, k);
    SmallGoes(w[..k]);
    GoingIs(w[..k]);
    Unfold(w, k);
    assert PlanFor(w[..k + 1]).Going?;
    if n <= k {
      assert w[..k + 1][..n + 1] == w[..n + 1];
      PrefixGoes(w[..k + 1], n + 1);
    }
    SmallGrows(w[..n], k + 1);
    assert w[..n][..k + 1] == w[..k + 1];
  }

  lemma LargesGrow(w: seq<Frame>, k: nat)
    requires k < |w|
    ensures w[..k] != [] ==> Larges(w[..k][..|w[..k]| - 1]) <= Larges(w[..k])
  {
  }

  lemma Unfold(w: seq<Frame>, k: nat)
    requires k < |w|
    ensures PlanFor(w[..k + 1]) == Next(PlanFor(w[..k]), w[k])
    ensures SmallBytes(w[..k + 1]) == SmallBytes(w[..k]) + if IsLarge(w[k]) then 0 else WireLen(w[k])
  {
    assert w[..k + 1][..k] == w[..k];
  }

  lemma OverrunIsThere(w: seq<Frame>, n: nat) returns (k: nat)
    requires Takes(w, n) && SmallBytes(w[..n]) > RELAY_BUF_SIZE
    ensures k < |w| && Overruns(w, k)
  {
    hide PlanFor, SmallBytes, Larges, Recent;
    k := FirstPast(w[..n]);
    assert w[..n][..k] == w[..k] && w[..n][..k + 1] == w[..k + 1];
    PrefixGoes(w[..n], k);
    PrefixGoes(w[..n], k + 1);
    GoingIs(w[..k]);
    Unfold(w, k);
  }

  /** One drain coalesces more than its buffer holds exactly when the frame that first brings the small
      frames past that size finds room since the last large frame, with direct writes to spare. */
  lemma CoalescedPastBufferExactly(w: seq<Frame>, n: nat)
    requires Takes(w, n)
    ensures SmallBytes(w[..n]) > RELAY_BUF_SIZE <==> exists k :: 0 <= k < |w| && Overruns(w, k)
  {
    hide PlanFor, SmallBytes, Overruns;
    if SmallBytes(w[..n]) > RELAY_BUF_SIZE { var k := OverrunIsThere(w, n); }
    if k :| 0 <= k < |w| && Overruns(w, k) { OverrunIsTaken(w, n, k); }
  }

  /** No large frame comes after a small one. */
  predicate LargesFirst(w: seq<Frame>) {
    forall i, j :: 0 <= i < j < |w| && IsLarge(w[j]) ==> IsLarge(w[i])
  }

  lemma {:induction false} AllRecent(t: seq<Frame>)
    requires LargesFirst(t)
    ensures Recent(t) == SmallBytes(t)
    ensures (forall i :: 0 <= i < |t| ==> IsLarge(t[i])) ==> SmallBytes(t) == 0
  {
    if t != [] { AllRecent(t[..|t| - 1]); }
  }

  /** With no direct write after a coalesced frame, a drain stays within one buffer of small frames. */
  lemma LargesFirstStaysWithin(w: seq<Frame>, n: nat)
    requires Takes(w, n) && LargesFirst(w[..n])
    ensures SmallBytes(w[..n]) <= RELAY_BUF_SIZE
  {
    hide PlanFor, SmallBytes, Recent, Larges;
    GoingIs(w[..n]);
    AllRecent(w[..n]);
  }

  // ── A ring that coalesces more than one buffer ──

  function Sized(n: nat): (f: Frame)
    requires n >= FRAME_HEADER_LEN
    ensures WireLen(f) == n
  {
    Frame(0, seq(n - FRAME_HEADER_LEN, i => 0))
  }

  function Repeat(f: Frame, n: nat): seq<Frame> { if n == 0 then [] else Repeat(f, n - 1) + [f] }

  lemma {:induction false} RepeatSmall(f: Frame, n: nat)
    requires !IsLarge(f)
    ensures |Repeat(f, n)| == n && SmallBytes(Repeat(f, n)) == Recent(Repeat(f, n)) == n * WireLen(f) && Larges(Repeat(f, n)) == 0
  {
    hide SmallBytes, Recent, Larges, WireLen;
    if n == 0 {
      NoFrames();
    } else {
      RepeatSmall(f, n - 1);
      AfterSmall(Repeat(f, n - 1), f);
      OneMore(n - 1, WireLen(f));
    }
  }

  lemma OneMore(n: nat, x: nat)
    ensures n * x + x == (n + 1) * x
  {
  }

  lemma NoFrames()
    ensures SmallBytes([]) == Recent([]) == Larges([]) == 0
  {
  }

  lemma AfterSmall(t: seq<Frame>, f: Frame)
    requires !IsLarge(f)
    ensures SmallBytes(t + [f]) == SmallBytes(t) + WireLen(f) && Recent(t + [f]) == Recent(t) + WireLen(f)
    ensures Larges(t + [f]) == Larges(t)
  {
    assert (t + [f])[..|t|] == t;
  }

  /** Eight frames just under the threshold, one at it, and one more under it. */
  function Crowded(): seq<Frame> {
    Repeat(Sized(ZC_DIRECT_THRESHOLD - 1), 8) + [Sized(ZC_DIRECT_THRESHOLD)] + [Sized(ZC_DIRECT_THRESHOLD - 1)]
  }

  /** One drain of that ring coalesces more than 4 MiB of small frames. */
  lemma CrowdedRingOverruns(n: nat)
    requires Takes(Crowded(), n)
    ensures SmallBytes(Crowded()[..n]) > RELAY_BUF_SIZE
  {
    hide PlanFor, SmallBytes, Recent, Larges, Repeat, Sized;
    var s, l := Sized(ZC_DIRECT_THRESHOLD - 1), Sized(ZC_DIRECT_THRESHOLD);
    var w, r := Crowded(), Repeat(s, 8);
    RepeatSmall(s, 8);
    assert w[..9] == r + [l] && w[9] == s && |w| == 10;
    AfterLarge(r, l);
    assert Overruns(w, 9);
    OverrunIsTaken(w, n, 9);
  }

  lemma AfterLarge(t: seq<Frame>, l: Frame)
    requires IsLarge(l)
    ensures SmallBytes(t + [l]) == SmallBytes(t) && Recent(t + [l]) == 0 && Larges(t + [l]) == Larges(t) + 1
  {
    assert (t + [l])[..|t|] == t;
  }
}
