/** The per-uid token bucket in front of endpoint creation, with idle buckets evicted on every
    call. Tokens and seconds are exact reals. */
module RateLimiter {
  import opened Words

  const BUCKET_IDLE_EVICT: real := 120.0

  datatype Bucket = Bucket(tokens: real, touched: real)

  type Buckets = map<u32, Bucket>

  /** `duration_since`: never negative. */
  function Since(now: real, start: real): real { if now > start then now - start else 0.0 }

  function Capacity(perMin: nat): real { Max(perMin, 1) as real }

  function Rate(perMin: nat): real { perMin as real / 60.0 }

  function MinReal(a: real, b: real): real { if a < b then a else b }

  /** Drop the buckets not touched for two minutes. */
  function Evicted(bs: Buckets, now: real): Buckets {
    map uid | uid in bs && Since(now, bs[uid].touched) < BUCKET_IDLE_EVICT :: bs[uid]
  }

  /** The tokens a uid has at `now`: what is in its bucket and what has accrued, up to the
      capacity; a uid without a bucket has a full one. */
  function Level(perMin: nat, bs: Buckets, uid: u32, now: real): real {
    if uid !in bs then Capacity(perMin)
    else MinReal(bs[uid].tokens + Since(now, bs[uid].touched) * Rate(perMin), Capacity(perMin))
  }

  /** One request: refill, and take a token if there is a whole one. */
  function Taken(perMin: nat, bs: Buckets, uid: u32, now: real): Buckets {
    var level := Level(perMin, bs, uid, now);
    bs[uid := Bucket(if level >= 1.0 then level - 1.0 else level, now)]
  }

  class Limiter {
    var buckets: Buckets

    constructor ()
      ensures buckets == map[]
    {
      buckets := map[];
    }

    method AllowAt(uid: u32, perMin: nat, now: real) returns (admitted: bool)
      modifies this
      ensures var kept := Evicted(old(buckets), now);
        && admitted == (Level(perMin, kept, uid, now) >= 1.0)
        && buckets == Taken(perMin, kept, uid, now)
      ensures forall u :: u in buckets <==> u == uid || (u in old(buckets) && Since(now, old(buckets)[u].touched) < 120.0)
    {
      buckets := map u | u in buckets && Since(now, buckets[u].touched) < BUCKET_IDLE_EVICT :: buckets[u];
      assert buckets == Evicted(old(buckets), now);
      var cap := Max(perMin, 1) as real;
      var refill := perMin as real / 60.0;
      var entry := if uid in buckets then buckets[uid] else Bucket(cap, now);
      var elapsed := Since(now, entry.touched);
      assert uid !in buckets ==> elapsed * refill == 0.0;
      var tokens := MinReal(entry.tokens + elapsed * refill, cap);
      assert tokens == Level(perMin, buckets, uid, now);
      admitted := tokens >= 1.0;
      if admitted { tokens := tokens - 1.0; }
      buckets := buckets[uid := Bucket(tokens, now)];
    }

    /** The rate check in front of endpoint creation: a zero budget means no limit, and the buckets
        are not consulted. */
    method Admit(uid: u32, perMin: nat, now: real) returns (admitted: bool)
      modifies this
      ensures perMin == 0 ==> admitted && buckets == old(buckets)
      ensures perMin > 0 ==>
        var kept := Evicted(old(buckets), now);
        && admitted == (Level(perMin, kept, uid, now) >= 1.0)
        && buckets == Taken(perMin, kept, uid, now)
    {
      if perMin == 0 { return true; }
      admitted := AllowAt(uid, perMin, now);
    }
  }

  // ── Runs of requests ──

  datatype Request = Request(uid: u32, now: real)

  ghost predicate InOrder(rs: seq<Request>) { forall i, j :: 0 <= i <= j < |rs| ==> rs[i].now <= rs[j].now }

  /** The buckets after a run, with or without eviction. */
  ghost function After(perMin: nat, rs: seq<Request>, evict: bool): Buckets {
    if rs == [] then map[]
    else
      var bs := After(perMin, rs[..|rs| - 1], evict);
      var r := rs[|rs| - 1];
      Taken(perMin, if evict then Evicted(bs, r.now) else bs, r.uid, r.now)
  }

  /** Whether request `i` of a run is admitted. */
  ghost predicate Admitted(perMin: nat, rs: seq<Request>, evict: bool, i: nat)
    requires i < |rs|
  {
    var bs := After(perMin, rs[..i], evict);
    Level(perMin, if evict then Evicted(bs, rs[i].now) else bs, rs[i].uid, rs[i].now) >= 1.0
  }

  /** Whether request `i` of a run passes the rate check. */
  ghost predicate Passes(perMin: nat, rs: seq<Request>, evict: bool, i: nat)
    requires i < |rs|
  {
    perMin > 0 ==> Admitted(perMin, rs, evict, i)
  }

  lemma AfterSnoc(perMin: nat, rs: seq<Request>, evict: bool, i: nat)
    requires i < |rs|
    ensures var bs := After(perMin, rs[..i], evict);
            After(perMin, rs[..i + 1], evict) == Taken(perMin, if evict then Evicted(bs, rs[i].now) else bs, rs[i].uid, rs[i].now)
  {
    assert rs[..i + 1][..i] == rs[..i];
  }

  /** The rate check's decisions over a run are those of the evicting run. */
  method Replay(perMin: nat, rs: seq<Request>) returns (admitted: seq<bool>)
    ensures |admitted| == |rs|
    ensures forall i :: 0 <= i < |rs| ==> admitted[i] == Passes(perMin, rs, true, i)
  {
    hide Level, Taken, Evicted;
    var limiter := new Limiter();
    admitted := [];
    for i := 0 to |rs|
      invariant |admitted| == i && (perMin > 0 ==> limiter.buckets == After(perMin, rs[..i], true))
      invariant forall k :: 0 <= k < i ==> admitted[k] == Passes(perMin, rs, true, k)
    {
      AfterSnoc(perMin, rs, true, i);
      var a := limiter.Admit(rs[i].uid, perMin, rs[i].now);
      admitted := admitted + [a];
    }
  }

  // ── What a bucket holds ──

  /** Buckets between empty and full, none touched after `now`. */
  ghost predicate Sane(perMin: nat, bs: Buckets, now: real) {
    forall uid :: uid in bs ==> 0.0 <= bs[uid].tokens <= Capacity(perMin) && bs[uid].touched <= now
  }

  /** A level is never negative and grows no faster than the rate. */
  lemma LevelGrows(perMin: nat, bs: Buckets, uid: u32, now: real, later: real)
    requires Sane(perMin, bs, now) && now <= later
    ensures 0.0 <= Level(perMin, bs, uid, now) <= Level(perMin, bs, uid, later) <= Capacity(perMin)
    ensures Level(perMin, bs, uid, later) <= Level(perMin, bs, uid, now) + (later - now) * Rate(perMin)
  {
    var rate := Rate(perMin);
    Product(later - now, rate);
    if uid in bs {
      var b := bs[uid];
      Product(now - b.touched, rate);
      assert (later - b.touched) * rate == (now - b.touched) * rate + (later - now) * rate;
    }
  }

  lemma Product(x: real, y: real)
    requires x >= 0.0 && y >= 0.0
    ensures x * y >= 0.0
  {
  }

  /** A request changes no other uid's level, and its own by the token it takes. */
  lemma TakenLevel(perMin: nat, bs: Buckets, uid: u32, now: real, other: u32)
    requires Sane(perMin, bs, now)
    ensures Sane(perMin, Taken(perMin, bs, uid, now), now)
    ensures var level, took := Level(perMin, bs, other, now), other == uid && Level(perMin, bs, uid, now) >= 1.0;
            Level(perMin, Taken(perMin, bs, uid, now), other, now) == if took then level - 1.0 else level
  {
    hide Level, Rate, Capacity;
    LevelGrows(perMin, bs, uid, now, now);
    if other == uid {
      LevelJustTouched(perMin, Taken(perMin, bs, uid, now), uid, now);
    } else {
      LevelElsewhere(perMin, bs, Taken(perMin, bs, uid, now), other, now);
    }
  }

  lemma LevelJustTouched(perMin: nat, bs: Buckets, uid: u32, now: real)
    requires uid in bs && bs[uid].touched == now && bs[uid].tokens <= Capacity(perMin)
    ensures Level(perMin, bs, uid, now) == bs[uid].tokens
  {
  }

  lemma LevelElsewhere(perMin: nat, bs: Buckets, bs': Buckets, uid: u32, now: real)
    requires uid in bs <==> uid in bs'
    requires uid in bs ==> bs[uid] == bs'[uid]
    ensures Level(perMin, bs, uid, now) == Level(perMin, bs', uid, now)
  {
  }

  // ── Eviction changes no decision ──

  /** The same levels from `now` on. */
  ghost predicate SameLevels(perMin: nat, a: Buckets, b: Buckets, now: real) {
    forall uid: u32, t: real :: t >= now ==> Level(perMin, a, uid, t) == Level(perMin, b, uid, t)
  }

  /** A bucket idle for two minutes has refilled. */
  lemma EvictedLevel(perMin: nat, bs: Buckets, now: real, uid: u32, t: real)
    requires perMin >= 1 && Sane(perMin, bs, now) && t >= now
    ensures Level(perMin, Evicted(bs, now), uid, t) == Level(perMin, bs, uid, t)
  {
    if uid in bs && uid !in Evicted(bs, now) {
      var idle := t - bs[uid].touched;
      Product(idle - BUCKET_IDLE_EVICT, Rate(perMin));
      assert idle * Rate(perMin) >= BUCKET_IDLE_EVICT * Rate(perMin) == 2.0 * perMin as real;
    }
  }

  lemma EvictedSane(perMin: nat, bs: Buckets, now: real)
    requires Sane(perMin, bs, now)
    ensures Sane(perMin, Evicted(bs, now), now)
  {
  }

  lemma SaneLater(perMin: nat, bs: Buckets, now: real, later: real)
    requires Sane(perMin, bs, now) && now <= later
    ensures Sane(perMin, bs, later)
  {
  }

  lemma TakenSame(perMin: nat, a: Buckets, b: Buckets, uid: u32, now: real)
    requires SameLevels(perMin, a, b, now)
    ensures SameLevels(perMin, Taken(perMin, a, uid, now), Taken(perMin, b, uid, now), now)
  {
    hide Level;
    var a', b' := Taken(perMin, a, uid, now), Taken(perMin, b, uid, now);
    assert Level(perMin, a, uid, now) == Level(perMin, b, uid, now);
    forall u: u32, t: real | t >= now ensures Level(perMin, a', u, t) == Level(perMin, b', u, t) {
      assert Level(perMin, a, u, t) == Level(perMin, b, u, t);
      if u == uid {
        LevelElsewhere(perMin, a', b', u, t);
      } else {
        LevelElsewhere(perMin, a, a', u, t);
        LevelElsewhere(perMin, b, b', u, t);
      }
    }
  }

  /** Evicting and keeping runs agree on every level at and after the last request. */
  lemma {:induction false} RunsAgree(perMin: nat, rs: seq<Request>, i: nat, now: real)
    requires perMin >= 1 && InOrder(rs) && i <= |rs| && (i > 0 ==> rs[i - 1].now <= now)
    ensures SameLevels(perMin, After(perMin, rs[..i], true), After(perMin, rs[..i], false), now)
    ensures Sane(perMin, After(perMin, rs[..i], true), now) && Sane(perMin, After(perMin, rs[..i], false), now)
  {
    hide Level, Taken, Evicted, Sane;
    if i == 0 {
      assert rs[..0] == [];
      NoBuckets(perMin, now);
    } else {
      var r := rs[i - 1];
      RunsAgree(perMin, rs, i - 1, r.now);
      var e, k := After(perMin, rs[..i - 1], true), After(perMin, rs[..i - 1], false);
      AfterSnoc(perMin, rs, true, i - 1);
      AfterSnoc(perMin, rs, false, i - 1);
      EvictedSane(perMin, e, r.now);
      forall u: u32, t: real | t >= r.now ensures Level(perMin, Evicted(e, r.now), u, t) == Level(perMin, k, u, t) {
        EvictedLevel(perMin, e, r.now, u, t);
        assert Level(perMin, e, u, t) == Level(perMin, k, u, t);
      }
      TakenSame(perMin, Evicted(e, r.now), k, r.uid, r.now);
      TakenLevel(perMin, Evicted(e, r.now), r.uid, r.now, r.uid);
      TakenLevel(perMin, k, r.uid, r.now, r.uid);
      SaneLater(perMin, Taken(perMin, Evicted(e, r.now), r.uid, r.now), r.now, now);
      SaneLater(perMin, Taken(perMin, k, r.uid, r.now), r.now, now);
    }
  }

  lemma NoBuckets(perMin: nat, now: real)
    ensures Sane(perMin, map[], now) && SameLevels(perMin, map[], map[], now)
  {
  }

  ghost predicate EvictionInvisible(perMin: nat) {
    forall rs: seq<Request>, i: nat :: InOrder(rs) && i < |rs| ==>
      Admitted(perMin, rs, true, i) == Admitted(perMin, rs, false, i)
  }

  lemma SameDecision(perMin: nat, rs: seq<Request>, i: nat)
    requires perMin >= 1 && InOrder(rs) && i < |rs|
    ensures Admitted(perMin, rs, true, i) == Admitted(perMin, rs, false, i)
  {
    hide Level, Evicted, Sane, After;
    var r, e, k := rs[i], After(perMin, rs[..i], true), After(perMin, rs[..i], false);
    RunsAgree(perMin, rs, i, r.now);
    EvictedLevel(perMin, e, r.now, r.uid, r.now);
    assert Level(perMin, e, r.uid, r.now) == Level(perMin, k, r.uid, r.now);
  }

  /** The rate check admits the same requests as one that never evicted, for every budget: the one
      budget for which the bucket arithmetic alone would differ never reaches it. */
  lemma EvictionNeverSeen(perMin: nat, rs: seq<Request>, i: nat)
    requires InOrder(rs) && i < |rs|
    ensures Passes(perMin, rs, true, i) <==> Passes(perMin, rs, false, i)
  {
    hide Admitted;
    if perMin > 0 { SameDecision(perMin, rs, i); }
  }

  /** The bucket arithmetic alone with a zero budget: the single token never comes back, but
      eviction hands out another. */
  lemma ZeroBudgetDiffers()
    ensures !EvictionInvisible(0)
  {
    var rs := [Request(0, 0.0), Request(0, 120.0)];
    assert rs[..1] == [Request(0, 0.0)] && rs[..1][..0] == [];
    assert After(0, rs[..1], true) == map[0 := Bucket(0.0, 0.0)] == After(0, rs[..1], false);
    assert Evicted(map[0 := Bucket(0.0, 0.0)], 120.0) == map[];
    assert Admitted(0, rs, true, 1) && !Admitted(0, rs, false, 1);
    assert InOrder(rs) && 1 < |rs|;
  }

  /** The bucket arithmetic decides alike with and without eviction exactly for a budget above zero,
      the budgets the rate check hands to it. */
  lemma EvictionInvisibleExactly(perMin: nat)
    ensures EvictionInvisible(perMin) <==> perMin >= 1
  {
    hide Admitted;
    if perMin >= 1 {
      forall rs: seq<Request>, i: nat | InOrder(rs) && i < |rs|
        ensures Admitted(perMin, rs, true, i) == Admitted(perMin, rs, false, i)
      {
        SameDecision(perMin, rs, i);
      }
    } else {
      ZeroBudgetDiffers();
    }
  }

  // ── Admissions in a window ──

  /** How many requests of `uid` among numbers `i` up to `j` are admitted. */
  ghost function Count(perMin: nat, rs: seq<Request>, uid: u32, i: nat, j: nat): nat
    requires i <= j <= |rs|
    decreases j - i
  {
    if i == j then 0
    else Count(perMin, rs, uid, i, j - 1) + if rs[j - 1].uid == uid && Admitted(perMin, rs, true, j - 1) then 1 else 0
  }

  /** What is left in the bucket bounds what was taken from it. */
  lemma {:induction false} TakenInWindow(perMin: nat, rs: seq<Request>, uid: u32, i: nat, j: nat)
    requires perMin >= 1 && InOrder(rs) && i < j <= |rs|
    ensures Sane(perMin, After(perMin, rs[..j], false), rs[j - 1].now)
    ensures Count(perMin, rs, uid, i, j) as real + Level(perMin, After(perMin, rs[..j], false), uid, rs[j - 1].now)
              <= Capacity(perMin) + (rs[j - 1].now - rs[i].now) * Rate(perMin)
    decreases j
  {
    hide Level, Taken, Evicted, Sane, After, Admitted;
    var r, k := rs[j - 1], After(perMin, rs[..j - 1], false);
    RunsAgree(perMin, rs, j - 1, r.now);
    AfterSnoc(perMin, rs, false, j - 1);
    SameDecision(perMin, rs, j - 1);
    TakenLevel(perMin, k, r.uid, r.now, uid);
    AdmittedIs(perMin, rs, j - 1);
    if j - 1 == i {
      LevelGrows(perMin, k, uid, r.now, r.now);
      assert Count(perMin, rs, uid, i, j - 1) == 0;
    } else {
      TakenInWindow(perMin, rs, uid, i, j - 1);
      var p := rs[j - 2].now;
      LevelGrows(perMin, k, uid, p, r.now);
      assert (r.now - rs[i].now) * Rate(perMin) == (r.now - p) * Rate(perMin) + (p - rs[i].now) * Rate(perMin);
    }
  }

  lemma AdmittedIs(perMin: nat, rs: seq<Request>, i: nat)
    requires i < |rs|
    ensures Admitted(perMin, rs, false, i) == (Level(perMin, After(perMin, rs[..i], false), rs[i].uid, rs[i].now) >= 1.0)
  {
  }

  /** Admissions of one uid in any window of `T` seconds: a full bucket and what accrues in it. */
  lemma WindowBound(perMin: nat, rs: seq<Request>, uid: u32, i: nat, j: nat, T: real)
    requires perMin >= 1 && InOrder(rs) && i < j <= |rs| && rs[j - 1].now - rs[i].now <= T
    ensures Count(perMin, rs, uid, i, j) as real <= perMin as real + T * perMin as real / 60.0
  {
    hide Level, After, Count;
    TakenInWindow(perMin, rs, uid, i, j);
    LevelGrows(perMin, After(perMin, rs[..j], false), uid, rs[j - 1].now, rs[j - 1].now);
    Product(T - (rs[j - 1].now - rs[i].now), Rate(perMin));
    assert T * perMin as real / 60.0 == T * Rate(perMin);
  }

  // ── Exactly when a request is admitted ──

  /** Clipping at the capacity now or later is the same. */
  lemma LevelLater(perMin: nat, bs: Buckets, uid: u32, now: real, later: real)
    requires Sane(perMin, bs, now) && now <= later
    ensures Level(perMin, bs, uid, later)
         == MinReal(Level(perMin, bs, uid, now) + (later - now) * Rate(perMin), Capacity(perMin))
  {
    var rate := Rate(perMin);
    Product(later - now, rate);
    if uid in bs {
      assert (later - bs[uid].touched) * rate == (now - bs[uid].touched) * rate + (later - now) * rate;
    }
  }

  /** The tokens that accrue in `dt` seconds. */
  ghost function Accrued(perMin: nat, dt: real): real { dt * perMin as real / 60.0 }

  lemma AccruedAdds(perMin: nat, a: real, b: real)
    ensures Accrued(perMin, a + b) == Accrued(perMin, a) + Accrued(perMin, b)
    ensures a >= 0.0 ==> Accrued(perMin, a) >= 0.0
    ensures a * Rate(perMin) == Accrued(perMin, a)
  {
    var p := perMin as real;
    assert (a + b) * p == a * p + b * p;
    if a >= 0.0 { Product(a, p); }
  }

  /** What a uid may still be admitted for at request `j`, counting from request `i` on: a full bucket,
      what accrued since, less what was admitted. */
  ghost function Left(perMin: nat, rs: seq<Request>, uid: u32, i: nat, j: nat): real
    requires i <= j < |rs|
  {
    perMin as real + Accrued(perMin, rs[j].now - rs[i].now) - Count(perMin, rs, uid, i, j) as real
  }

  /** The tokens before request `j` that a run without eviction finds. */
  ghost function Tokens(perMin: nat, rs: seq<Request>, uid: u32, j: nat): real
    requires j < |rs|
  {
    Level(perMin, After(perMin, rs[..j], false), uid, rs[j].now)
  }

  /** From one request to the next: a token taken, and what accrues, up to the capacity. */
  lemma TokensNext(perMin: nat, rs: seq<Request>, uid: u32, j: nat)
    requires perMin >= 1 && InOrder(rs) && j + 1 < |rs|
    ensures var took := rs[j].uid == uid && Admitted(perMin, rs, true, j);
      var left := Tokens(perMin, rs, uid, j) - if took then 1.0 else 0.0;
      Tokens(perMin, rs, uid, j + 1) == MinReal(left + Accrued(perMin, rs[j + 1].now - rs[j].now), Capacity(perMin))
  {
    hide Level, Taken, Evicted, Sane, After, Admitted, Rate, Capacity, Accrued;
    AccruedAdds(perMin, rs[j + 1].now - rs[j].now, 0.0);
    var r, k := rs[j], After(perMin, rs[..j], false);
    RunsAgree(perMin, rs, j, r.now);
    RunsAgree(perMin, rs, j + 1, r.now);
    AfterSnoc(perMin, rs, false, j);
    SameDecision(perMin, rs, j);
    AdmittedIs(perMin, rs, j);
    TakenLevel(perMin, k, r.uid, r.now, uid);
    LevelLater(perMin, After(perMin, rs[..j + 1], false), uid, r.now, rs[j + 1].now);
  }

  lemma TokensFirst(perMin: nat, rs: seq<Request>, uid: u32)
    requires 0 < |rs|
    ensures Tokens(perMin, rs, uid, 0) == Capacity(perMin)
  {
    assert rs[..0] == [];
  }

  lemma LeftNext(perMin: nat, rs: seq<Request>, uid: u32, i: nat, j: nat)
    requires i <= j && j + 1 < |rs|
    ensures Left(perMin, rs, uid, i, j + 1) == Left(perMin, rs, uid, i, j)
         + Accrued(perMin, rs[j + 1].now - rs[j].now)
         - if rs[j].uid == uid && Admitted(perMin, rs, true, j) then 1.0 else 0.0
  {
    hide Admitted, Accrued;
    AccruedAdds(perMin, rs[j + 1].now - rs[j].now, rs[j].now - rs[i].now);
  }

  lemma LeftNow(perMin: nat, rs: seq<Request>, uid: u32, j: nat)
    requires perMin >= 1 && j < |rs|
    ensures Left(perMin, rs, uid, j, j) == Capacity(perMin)
  {
  }

  /** The tokens found are the least of what is left, over all windows. */
  lemma {:induction false} TokensAreLeast(perMin: nat, rs: seq<Request>, uid: u32, j: nat) returns (i: nat)
    requires perMin >= 1 && InOrder(rs) && j < |rs|
    ensures i <= j && Tokens(perMin, rs, uid, j) == Left(perMin, rs, uid, i, j)
    ensures forall k :: 0 <= k <= j ==> Tokens(perMin, rs, uid, j) <= Left(perMin, rs, uid, k, j)
  {
    hide Left, Tokens, Admitted, Accrued, Capacity;
    LeftNow(perMin, rs, uid, j);
    if j == 0 {
      TokensFirst(perMin, rs, uid);
      i := 0;
    } else {
      i := TokensAreLeast(perMin, rs, uid, j - 1);
      TokensNext(perMin, rs, uid, j - 1);
      LeftNext(perMin, rs, uid, i, j - 1);
      forall k | 0 <= k <= j ensures Tokens(perMin, rs, uid, j) <= Left(perMin, rs, uid, k, j) {
        if k < j { LeftNext(perMin, rs, uid, k, j - 1); }
      }
      if Tokens(perMin, rs, uid, j) == Capacity(perMin) { i := j; }
    }
  }

  lemma AdmittedByLeft(perMin: nat, rs: seq<Request>, j: nat)
    requires perMin >= 1 && InOrder(rs) && j < |rs|
    ensures Admitted(perMin, rs, true, j) <==> forall i :: 0 <= i <= j ==> Left(perMin, rs, rs[j].uid, i, j) >= 1.0
  {
    hide Admitted, Left, Tokens;
    SameDecision(perMin, rs, j);
    TokensDecide(perMin, rs, j);
    var i := TokensAreLeast(perMin, rs, rs[j].uid, j);
  }

  /** A request is admitted exactly when every window ending at it has room for one more: at most
      `per_min` admissions, and `per_min` more for each minute of the window. */
  lemma AdmittedExactly(perMin: nat, rs: seq<Request>, j: nat)
    requires perMin >= 1 && InOrder(rs) && j < |rs|
    ensures Admitted(perMin, rs, true, j) <==>
      forall i :: 0 <= i <= j ==>
        Count(perMin, rs, rs[j].uid, i, j) as real + 1.0 <= perMin as real + (rs[j].now - rs[i].now) * perMin as real / 60.0
  {
    hide Admitted, Count, Left;
    AdmittedByLeft(perMin, rs, j);
    forall i | 0 <= i <= j
      ensures Left(perMin, rs, rs[j].uid, i, j) >= 1.0 <==>
        Count(perMin, rs, rs[j].uid, i, j) as real + 1.0 <= perMin as real + (rs[j].now - rs[i].now) * perMin as real / 60.0
    {
      LeftIs(perMin, rs, rs[j].uid, i, j);
    }
  }

  lemma LeftIs(perMin: nat, rs: seq<Request>, uid: u32, i: nat, j: nat)
    requires i <= j < |rs|
    ensures Left(perMin, rs, uid, i, j)
         == perMin as real + (rs[j].now - rs[i].now) * perMin as real / 60.0 - Count(perMin, rs, uid, i, j) as real
  {
    hide Count;
  }

  lemma TokensDecide(perMin: nat, rs: seq<Request>, j: nat)
    requires j < |rs|
    ensures Admitted(perMin, rs, false, j) <==> Tokens(perMin, rs, rs[j].uid, j) >= 1.0
  {
  }

  /** A uid whose requests come no faster than its budget: any two of them are at least a token apart. */
  ghost predicate Spaced(perMin: nat, rs: seq<Request>, uid: u32) {
    forall a, b :: 0 <= a < b < |rs| && rs[a].uid == uid && rs[b].uid == uid ==>
      Accrued(perMin, rs[b].now - rs[a].now) >= 1.0
  }

  /** Before its next request at `j`, a spaced uid has had no more admissions than accrued tokens. */
  lemma {:induction false} SpacedCount(perMin: nat, rs: seq<Request>, uid: u32, i: nat, k: nat, j: nat)
    requires InOrder(rs) && Spaced(perMin, rs, uid) && i <= k <= j < |rs| && rs[j].uid == uid
    ensures Count(perMin, rs, uid, i, k) as real <= Accrued(perMin, rs[j].now - rs[i].now)
    decreases k
  {
    hide Admitted, Accrued;
    if k == i {
      AccruedAdds(perMin, rs[j].now - rs[i].now, 0.0);
    } else if rs[k - 1].uid == uid {
      SpacedCount(perMin, rs, uid, i, k - 1, k - 1);
      AccruedAdds(perMin, rs[j].now - rs[k - 1].now, rs[k - 1].now - rs[i].now);
    } else {
      SpacedCount(perMin, rs, uid, i, k - 1, j);
    }
  }

  /** Requests of one uid that are `60 / per_min` seconds apart are all admitted, whatever the others do. */
  lemma SpacedAdmitted(perMin: nat, rs: seq<Request>, j: nat)
    requires perMin >= 1 && InOrder(rs) && j < |rs| && Spaced(perMin, rs, rs[j].uid)
    ensures Admitted(perMin, rs, true, j)
  {
    hide Admitted, Count, Spaced, Accrued;
    AdmittedByLeft(perMin, rs, j);
    forall i | 0 <= i <= j ensures Left(perMin, rs, rs[j].uid, i, j) >= 1.0 {
      SpacedCount(perMin, rs, rs[j].uid, i, j, j);
    }
  }

  /** How many of the first `j` requests are a uid's. */
  function Asked(rs: seq<Request>, uid: u32, j: nat): nat
    requires j <= |rs|
  {
    if j == 0 then 0 else Asked(rs, uid, j - 1) + if rs[j - 1].uid == uid then 1 else 0
  }

  lemma {:induction false} CountAtMost(perMin: nat, rs: seq<Request>, uid: u32, i: nat, j: nat)
    requires i <= j <= |rs|
    ensures Count(perMin, rs, uid, i, j) <= Asked(rs, uid, j)
    decreases j - i
  {
    hide Admitted;
    if i < j { CountAtMost(perMin, rs, uid, i, j - 1); }
  }

  /** A uid's first `per_min` requests are admitted, however fast they come. */
  lemma BurstAdmitted(perMin: nat, rs: seq<Request>, j: nat)
    requires InOrder(rs) && j < |rs| && Asked(rs, rs[j].uid, j) < perMin
    ensures Admitted(perMin, rs, true, j)
  {
    hide Admitted, Count, Asked, Accrued;
    AdmittedByLeft(perMin, rs, j);
    forall i | 0 <= i <= j ensures Left(perMin, rs, rs[j].uid, i, j) >= 1.0 {
      CountAtMost(perMin, rs, rs[j].uid, i, j);
      AccruedAdds(perMin, rs[j].now - rs[i].now, 0.0);
    }
  }
}
