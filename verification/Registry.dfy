/** The registry of live endpoints. Each lock-held section of the manager is one step; calls of
    concurrent clients interleave between sections. Slots stand for owner keys, which determine
    them. */
module Registry {
  import opened Words
  import opened OwnerKeys

  const MAX_ID: nat := U32_SPAN - 1

  datatype Live = Live(nextId: u32, byId: map<u32, Slot>, byOwner: map<string, u32>)

  // ── Lock-held sections ──

  /** Ids of a uid's registered endpoints. */
  function Owned(byId: map<u32, Slot>, uid: u32): set<u32> {
    set id | id in byId && byId[id].uid == uid
  }

  /** `id.checked_add(1).unwrap_or(1).max(1)`. */
  function NextId(id: u32): (r: u32)
    ensures r != 0
  {
    if id == MAX_ID then 1 else id + 1
  }

  /** The per-uid quota turns down a new slot, never a replacement. */
  predicate OverQuota(quota: nat, live: Live, slot: Slot) {
    quota > 0 && OwnerKey(slot) !in live.byOwner && |Owned(live.byId, slot.uid)| >= quota
  }

  /** Insert under both maps; an earlier endpoint of the same owner stays until it is detached. */
  function Inserted(live: Live, id: u32, slot: Slot): Live {
    live.(byId := live.byId[id := slot], byOwner := live.byOwner[OwnerKey(slot) := id])
  }

  function Detached(live: Live, id: u32): Live { live.(byId := live.byId - {id}) }

  predicate MayClose(live: Live, uid: u32, id: u32) { id in live.byId && live.byId[id].uid == uid }

  function Closed(live: Live, id: u32): Live
    requires id in live.byId
  {
    live.(byId := live.byId - {id}, byOwner := live.byOwner - {OwnerKey(live.byId[id])})
  }

  lemma OwnedOneMore(byId: map<u32, Slot>, uid: u32, done: set<u32>, id: u32)
    requires id in byId && id !in done
    ensures |Owned(byId, uid) * (done + {id})| == |Owned(byId, uid) * done| + if byId[id].uid == uid then 1 else 0
  {
    var mine := Owned(byId, uid);
    if id in mine {
      assert mine * (done + {id}) == mine * done + {id};
    } else {
      assert mine * (done + {id}) == mine * done;
    }
  }

  lemma OwnedAll(byId: map<u32, Slot>, uid: u32)
    ensures Owned(byId, uid) * byId.Keys == Owned(byId, uid)
  {
  }

  // ── The manager ──

  datatype RegisterResult = Registered(replaced: set<u32>) | QuotaReached

  datatype CloseResult = CloseOk | NotFound | PermissionDenied

  class Manager {
    const quota: nat
    var nextId: u32
    var byId: map<u32, Slot>
    var byOwner: map<string, u32>
    var signalled: set<u32>          // endpoints told to shut down

    ghost function View(): Live
      reads this
    {
      Live(nextId, byId, byOwner)
    }

    constructor (quota: nat)
      ensures this.quota == quota && View() == Live(1, map[], map[]) && signalled == {}
    {
      this.quota := quota;
      nextId, byId, byOwner, signalled := 1, map[], map[], {};
    }

    /** The next id that is not in use, counting upwards from `next_id` and wrapping past the
        largest id back to 1. Terminates because some id is free. */
    method AllocId() returns (id: u32)
      requires nextId != 0 && |byId| < MAX_ID
      modifies this`nextId
      ensures id != 0 && id !in byId
      ensures nextId == NextId(id)
      ensures forall j :: 0 <= j < Ahead(old(nextId), id) ==> Cycle(old(nextId), j) in byId
    {
      ghost var free := SomeFreeId(byId.Keys);
      ghost var start, n := nextId, 0;
      id := nextId;
      CycleStart(start);
      while id in byId
        invariant id != 0 && n <= Ahead(start, free) && id == Cycle(start, n) && n == Ahead(start, id)
        invariant forall j :: 0 <= j < n ==> Cycle(start, j) in byId
        decreases Ahead(start, free) - n
      {
        CycleNext(start, n, free);
        id := NextId(id);
        n := n + 1;
      }
      nextId := NextId(id);
    }

    /** How many registered endpoints a uid has. */
    method CountOwned(uid: u32) returns (n: nat)
      ensures n == |Owned(byId, uid)|
    {
      hide Owned;
      n := 0;
      var rest := byId.Keys;
      ghost var done: set<u32> := {};
      while rest != {}
        invariant done !! rest && done + rest == byId.Keys
        invariant n == |Owned(byId, uid) * done|
        decreases |rest|
      {
        var id :| id in rest;
        OwnedOneMore(byId, uid, done, id);
        if byId[id].uid == uid { n := n + 1; }
        rest, done := rest - {id}, done + {id};
      }
      OwnedAll(byId, uid);
    }

    /** The early quota check of `check_admission`: turned down exactly when registering would be. */
    method Admit(slot: Slot) returns (ok: bool)
      ensures ok <==> !OverQuota(quota, View(), slot)
      ensures ok <==> quota == 0 || OwnerKey(slot) in byOwner || |set id | id in byId && byId[id].uid == slot.uid| < quota
    {
      assert Owned(byId, slot.uid) == set id | id in byId && byId[id].uid == slot.uid;
      ok := true;
      if quota > 0 && OwnerKey(slot) !in byOwner {
        var owned := CountOwned(slot.uid);
        ok := owned < quota;
      }
    }

    /** The quota check repeated under the inserting lock, and the insertion. */
    method Register(id: u32, slot: Slot) returns (r: RegisterResult)
      modifies this
      ensures r.QuotaReached? <==> OverQuota(quota, old(View()), slot)
      ensures r.Registered? <==>
        || quota == 0 || OwnerKey(slot) in old(byOwner)
        || |set i | i in old(byId) && old(byId)[i].uid == slot.uid| < quota
      ensures r.QuotaReached? ==> View() == old(View()) && signalled == old(signalled) + {id}
      ensures r.Registered? ==> View() == Inserted(old(View()), id, slot) && signalled == old(signalled)
      ensures r.Registered? ==>
        r.replaced == if OwnerKey(slot) in old(byOwner) then {old(byOwner)[OwnerKey(slot)]} else {}
    {
      assert Owned(byId, slot.uid) == set i | i in byId && byId[i].uid == slot.uid;
      var key := OwnerKey(slot);
      if quota > 0 && key !in byOwner {
        var owned := CountOwned(slot.uid);
        if owned >= quota {
          signalled := signalled + {id};
          return QuotaReached;
        }
      }
      r := Registered(if key in byOwner then {byOwner[key]} else {});
      byOwner := byOwner[key := id];
      byId := byId[id := slot];
    }

    /** Remove and signal an endpoint, if it is still there. */
    method DetachEndpoint(id: u32)
      modifies this
      ensures View() == Detached(old(View()), id)
      ensures signalled == old(signalled) + if id in old(byId) then {id} else {}
    {
      if id in byId {
        byId := byId - {id};
        signalled := signalled + {id};
      } else {
        assert byId - {id} == byId;
      }
    }

    /** Only the owning uid may close; closing also drops whatever the owner key points at. */
    method Close(uid: u32, id: u32) returns (r: CloseResult)
      modifies this
      ensures r.NotFound? <==> id !in old(byId)
      ensures r.PermissionDenied? <==> id in old(byId) && old(byId)[id].uid != uid
      ensures r.CloseOk? ==> View() == Closed(old(View()), id) && signalled == old(signalled) + {id}
      ensures !r.CloseOk? ==> View() == old(View()) && signalled == old(signalled)
    {
      if id !in byId { return NotFound; }
      if byId[id].uid != uid { return PermissionDenied; }
      var key := OwnerKey(byId[id]);
      byId := byId - {id};
      byOwner := byOwner - {key};
      signalled := signalled + {id};
      r := CloseOk;
    }

    method ShutdownAll()
      modifies this
      ensures View() == Live(old(nextId), map[], map[])
      ensures signalled == old(signalled) + old(byId).Keys
    {
      byOwner := map[];
      signalled := signalled + byId.Keys;
      byId := map[];
    }
  }

  // ── Ids ──

  /** The id `j` places after `id`, counting 1 to the largest id and round again. */
  function Cycle(id: u32, j: nat): (r: u32)
    requires id != 0 && j < MAX_ID
    ensures r != 0
  {
    if id + j <= MAX_ID then id + j else id + j - MAX_ID
  }

  /** How many places after `id` the id `to` comes. */
  function Ahead(id: u32, to: u32): (n: nat)
    requires id != 0 && to != 0
    ensures n < MAX_ID && Cycle(id, n) == to
  {
    if to >= id then to - id else to + MAX_ID - id
  }

  lemma CycleStart(id: u32)
    requires id != 0
    ensures Cycle(id, 0) == id && Ahead(id, id) == 0
  {
  }

  /** A live id lies before the free one, and the next id comes one place after it. */
  lemma CycleNext(id: u32, n: nat, free: u32)
    requires id != 0 && free != 0 && n <= Ahead(id, free) && Cycle(id, n) != free
    ensures n < Ahead(id, free)
    ensures NextId(Cycle(id, n)) == Cycle(id, n + 1) && Ahead(id, Cycle(id, n + 1)) == n + 1
  {
  }

  lemma {:induction false} AllTaken(used: set<u32>, n: nat)
    requires n < U32_SPAN && forall id: u32 :: 1 <= id <= n ==> id in used
    ensures |used| >= n
  {
    if n > 0 {
      var id: u32 := n;
      AllTaken(used - {id}, n - 1);
    }
  }

  lemma SomeFreeId(used: set<u32>) returns (free: u32)
    requires |used| < MAX_ID
    ensures free != 0 && free !in used
  {
    if forall id: u32 :: 1 <= id <= MAX_ID ==> id in used { AllTaken(used, MAX_ID); }
    free :| 1 <= free <= MAX_ID && free !in used;
  }
}
