/** Runs of the endpoint registry: concurrent creates, replacements, closes and shutdowns,
    interleaved at their lock-held sections, and runs of whole calls. */
module RegistryRuns {
  import opened Words
  import opened OwnerKeys
  import opened Registry

  /** The registry, the ids replaced and not yet detached, the endpoints built and not yet
      registered, and those told to shut down. */
  datatype State = State(live: Live, awaiting: set<u32>, building: map<u32, Slot>, signalled: set<u32>)

  datatype Label = BeginCreate(slot: Slot) | Register(id: u32) | Detach(id: u32) | CloseCall(uid: u32, id: u32) | Shutdown

  /** The id `alloc_id` returns: the first free one, counting up from `next_id`. */
  ghost function FirstFree(used: set<u32>, start: u32, n: nat): (id: u32)
    requires start != 0 && n < MAX_ID
    ensures id != 0
    decreases MAX_ID - n
  {
    if Cycle(start, n) !in used || n + 1 == MAX_ID then Cycle(start, n) else FirstFree(used, start, n + 1)
  }

  lemma {:induction false} FirstFreeIs(used: set<u32>, start: u32, n: nat, id: u32)
    requires start != 0 && id != 0 && id !in used && n <= Ahead(start, id)
    requires forall j :: n <= j < Ahead(start, id) ==> Cycle(start, j) in used
    ensures FirstFree(used, start, n) == id
    decreases Ahead(start, id) - n
  {
    hide Cycle;
    if n < Ahead(start, id) { FirstFreeIs(used, start, n + 1, id); }
  }

  /** The manager's allocation loop computes it. */
  method AllocIsFirstFree(m: Manager) returns (id: u32)
    requires m.nextId != 0 && |m.byId| < MAX_ID
    modifies m`nextId
    ensures id == FirstFree(m.byId.Keys, old(m.nextId), 0) && m.nextId == NextId(id)
  {
    hide FirstFree, Cycle;
    ghost var used, start := m.byId.Keys, m.nextId;
    id := m.AllocId();
    FirstFreeIs(used, start, 0, id);
  }

  ghost function Replaced(live: Live, slot: Slot): set<u32> {
    if OwnerKey(slot) in live.byOwner then {live.byOwner[OwnerKey(slot)]} else {}
  }

  ghost function AfterRegister(quota: nat, s: State, id: u32): State
    requires id in s.building
  {
    var slot := s.building[id];
    var s' := s.(building := s.building - {id});
    if OverQuota(quota, s.live, slot) then s'.(signalled := s.signalled + {id})
    else s'.(live := Inserted(s.live, id, slot), awaiting := s.awaiting + Replaced(s.live, slot))
  }

  ghost function Step(quota: nat, s: State, l: Label): State
    requires s.live.nextId != 0
  {
    match l
    case BeginCreate(slot) =>
      var id := FirstFree(s.live.byId.Keys, s.live.nextId, 0);
      s.(live := s.live.(nextId := NextId(id)), building := s.building[id := slot])
    case Register(id) => if id in s.building then AfterRegister(quota, s, id) else s
    case Detach(id) =>
      if id !in s.awaiting then s
      else s.(live := Detached(s.live, id), awaiting := s.awaiting - {id},
              signalled := s.signalled + (s.live.byId.Keys * {id}))
    case CloseCall(uid, id) =>
      if MayClose(s.live, uid, id) then s.(live := Closed(s.live, id), signalled := s.signalled + {id}) else s
    case Shutdown => s.(live := Live(s.live.nextId, map[], map[]), signalled := s.signalled + s.live.byId.Keys)
  }

  const INIT := State(Live(1, map[], map[]), {}, map[], {})

  ghost function Run(quota: nat, ls: seq<Label>): (s: State)
    ensures s.live.nextId != 0
  {
    if ls == [] then INIT else Step(quota, Run(quota, ls[..|ls| - 1]), ls[|ls| - 1])
  }

  function Creates(ls: seq<Label>): nat {
    if ls == [] then 0 else Creates(ls[..|ls| - 1]) + if ls[|ls| - 1].BeginCreate? then 1 else 0
  }

  method PerformRegister(m: Manager, id: u32, slot: Slot, ghost s: State)
    requires m.View() == s.live && m.signalled == s.signalled && id in s.building && s.building[id] == slot
    modifies m
    ensures m.View() == AfterRegister(m.quota, s, id).live && m.signalled == AfterRegister(m.quota, s, id).signalled
  {
    hide OwnerKey, OverQuota, Inserted;
    var r := m.Register(id, slot);
  }

  lemma OnlyOne(ids: set<u32>, id: u32)
    ensures ids * {id} == if id in ids then {id} else {}
  {
  }

  /** The steps are the manager's: each lock-held section takes the maps, the id counter and the shutdown
      signals where the step takes them. */
  method Perform(m: Manager, l: Label, slot: Slot, ghost s: State)
    requires m.View() == s.live && m.signalled == s.signalled && s.live.nextId != 0
    requires l.BeginCreate? ==> |m.byId| < MAX_ID
    requires l.Register? ==> l.id in s.building && s.building[l.id] == slot
    requires l.Detach? ==> l.id in s.awaiting
    modifies m
    ensures m.View() == Step(m.quota, s, l).live && m.signalled == Step(m.quota, s, l).signalled
  {
    hide FirstFree, Cycle, OwnerKey, AfterRegister, Closed, Detached;
    match l
    case BeginCreate(_) => var id := AllocIsFirstFree(m);
    case Register(id) => PerformRegister(m, id, slot, s);
    case Detach(id) =>
      OnlyOne(m.byId.Keys, id);
      m.DetachEndpoint(id);
    case CloseCall(uid, id) => var r := m.Close(uid, id);
    case Shutdown => m.ShutdownAll();
  }

  // ── What every interleaving keeps ──

  /** No owner key is dangling: it names a registered endpoint of that owner, not one awaiting
      detachment. */
  ghost predicate Sound(s: State) {
    forall k :: k in s.live.byOwner ==>
      && s.live.byOwner[k] in s.live.byId && s.live.byOwner[k] !in s.awaiting
      && OwnerKey(s.live.byId[s.live.byOwner[k]]) == k
  }

  /** A uid's endpoints that are not awaiting detachment. */
  ghost function Counted(s: State, uid: u32): set<u32> { Owned(s.live.byId, uid) - s.awaiting }

  ghost predicate WithinQuota(quota: nat, s: State) {
    quota > 0 ==> forall uid: u32 :: |Counted(s, uid)| <= quota
  }

  /** Registered, being built, or told to shut down. */
  ghost predicate Known(s: State, id: u32) { id in s.live.byId || id in s.building || id in s.signalled }

  /** Every id ever given out is exactly one of: registered, being built, told to shut down. */
  ghost predicate Accounted(s: State) {
    && (forall id: u32 :: Known(s, id) <==> 1 <= id < s.live.nextId)
    && (forall id :: id in s.live.byId ==> id !in s.building && id !in s.signalled)
    && (forall id :: id in s.building ==> id !in s.signalled)
    && (forall id :: id in s.awaiting ==> id in s.live.byId || id in s.signalled)
  }

  ghost predicate Inv(quota: nat, s: State) {
    s.live.nextId != 0 && Sound(s) && WithinQuota(quota, s) && Accounted(s)
  }

  lemma Subsets(a: set<u32>, b: set<u32>)
    requires a <= b
    ensures |a| <= |b|
  {
    assert b == a + (b - a);
  }

  lemma BeginKeepsInv(quota: nat, s: State, slot: Slot)
    requires Inv(quota, s) && s.live.nextId < MAX_ID
    ensures Inv(quota, Step(quota, s, BeginCreate(slot)))
    ensures Step(quota, s, BeginCreate(slot)).live.nextId == s.live.nextId + 1
    ensures FirstFree(s.live.byId.Keys, s.live.nextId, 0) == s.live.nextId
  {
    hide Owned, FirstFree;
    var id := s.live.nextId;
    assert !Known(s, id);
    CycleStart(id);
    FirstFreeIs(s.live.byId.Keys, id, 0, id);
    var s' := Step(quota, s, BeginCreate(slot));
    forall j: u32 ensures Known(s', j) <==> Known(s, j) || j == id {}
    forall uid: u32 ensures Counted(s', uid) == Counted(s, uid) {}
  }

  lemma RegisterKeepsSound(quota: nat, s: State, id: u32)
    requires Inv(quota, s) && id in s.building && !OverQuota(quota, s.live, s.building[id])
    ensures Sound(AfterRegister(quota, s, id)) && Accounted(AfterRegister(quota, s, id))
  {
    hide Owned, OwnerKey, OverQuota;
    var slot, s' := s.building[id], AfterRegister(quota, s, id);
    var key := OwnerKey(slot);
    forall j: u32 ensures Known(s', j) <==> Known(s, j) {}
    forall k | k in s'.live.byOwner
      ensures s'.live.byOwner[k] in s'.live.byId && s'.live.byOwner[k] !in s'.awaiting
      ensures OwnerKey(s'.live.byId[s'.live.byOwner[k]]) == k
    {
      if k != key {
        assert s.live.byOwner[k] in s.live.byId;
        assert key in s.live.byOwner ==> OwnerKey(s.live.byId[s.live.byOwner[key]]) == key;
      }
    }
  }

  lemma ReplacementCounts(quota: nat, s: State, id: u32)
    requires Sound(s) && id in s.building && id !in s.live.byId && id !in s.awaiting
    requires OwnerKey(s.building[id]) in s.live.byOwner
    ensures var slot := s.building[id]; |Counted(AfterRegister(quota, s, id), slot.uid)| == |Counted(s, slot.uid)|
  {
    hide OwnerKey;
    var slot, s' := s.building[id], AfterRegister(quota, s, id);
    var was, oldId := Counted(s, slot.uid), s.live.byOwner[OwnerKey(slot)];
    assert OwnerKey(s.live.byId[oldId]) == OwnerKey(slot);
    OwnerKeyInjective(s.live.byId[oldId], slot);
    assert oldId in was;
    assert Counted(s', slot.uid) == (was - {oldId}) + {id};
  }

  lemma NewcomerCounts(quota: nat, s: State, id: u32)
    requires id in s.building && OwnerKey(s.building[id]) !in s.live.byOwner && !OverQuota(quota, s.live, s.building[id])
    ensures var slot := s.building[id]; |Counted(AfterRegister(quota, s, id), slot.uid)| <= |Owned(s.live.byId, slot.uid)| + 1
  {
    hide OwnerKey;
    var slot, s' := s.building[id], AfterRegister(quota, s, id);
    var all := Owned(s.live.byId, slot.uid) + {id};
    assert Counted(s', slot.uid) <= all;
    Subsets(Counted(s', slot.uid), all);
  }

  lemma OthersCount(quota: nat, s: State, id: u32, uid: u32)
    requires id in s.building && s.building[id].uid != uid
    ensures |Counted(AfterRegister(quota, s, id), uid)| <= |Counted(s, uid)|
  {
    hide OwnerKey, OverQuota;
    var s' := AfterRegister(quota, s, id);
    assert Counted(s', uid) <= Counted(s, uid);
    Subsets(Counted(s', uid), Counted(s, uid));
  }

  /** The check under the inserting lock keeps the quota: a new slot finds room, a replacement takes
      the place of the endpoint it replaces, which has the same uid. */
  lemma RegisterKeepsQuota(quota: nat, s: State, id: u32, uid: u32)
    requires Inv(quota, s) && id in s.building && !OverQuota(quota, s.live, s.building[id]) && quota > 0
    ensures |Counted(AfterRegister(quota, s, id), uid)| <= quota
  {
    hide OwnerKey, Owned, Sound, AfterRegister;
    assert |Counted(s, uid)| <= quota;
    if s.building[id].uid != uid {
      OthersCount(quota, s, id, uid);
    } else if OwnerKey(s.building[id]) in s.live.byOwner {
      ReplacementCounts(quota, s, id);
    } else {
      NewcomerCounts(quota, s, id);
    }
  }

  lemma RegisterKeepsInv(quota: nat, s: State, id: u32)
    requires Inv(quota, s) && id in s.building
    ensures Inv(quota, AfterRegister(quota, s, id))
  {
    hide Owned, OwnerKey, Sound, Accounted;
    var s' := AfterRegister(quota, s, id);
    if OverQuota(quota, s.live, s.building[id]) {
      RejectKeeps(quota, s, id);
    } else {
      RegisterKeepsSound(quota, s, id);
      if quota > 0 {
        forall uid: u32 ensures |Counted(s', uid)| <= quota { RegisterKeepsQuota(quota, s, id, uid); }
      }
    }
  }

  lemma RejectKeeps(quota: nat, s: State, id: u32)
    requires Inv(quota, s) && id in s.building && OverQuota(quota, s.live, s.building[id])
    ensures Inv(quota, AfterRegister(quota, s, id))
  {
    hide Owned, OwnerKey, OverQuota;
    var s' := AfterRegister(quota, s, id);
    forall j: u32 ensures Known(s', j) <==> Known(s, j) {}
    forall uid: u32 ensures Counted(s', uid) == Counted(s, uid) {}
  }

  /** Fewer registered endpoints, none of them newly counted. */
  lemma FewerKeepsQuota(quota: nat, s: State, s': State)
    requires WithinQuota(quota, s)
    requires forall id :: id in s'.live.byId && id !in s'.awaiting ==>
               id in s.live.byId && id !in s.awaiting && s'.live.byId[id] == s.live.byId[id]
    ensures WithinQuota(quota, s')
  {
    if quota > 0 {
      forall uid: u32 ensures |Counted(s', uid)| <= quota {
        assert Counted(s', uid) <= Counted(s, uid);
        Subsets(Counted(s', uid), Counted(s, uid));
      }
    }
  }

  lemma DetachKeepsInv(quota: nat, s: State, id: u32)
    requires Inv(quota, s) && id in s.awaiting
    ensures Inv(quota, Step(quota, s, Detach(id)))
  {
    hide OwnerKey, WithinQuota;
    var s' := Step(quota, s, Detach(id));
    forall j: u32 ensures Known(s', j) <==> Known(s, j) {}
    FewerKeepsQuota(quota, s, s');
  }

  lemma CloseKeepsInv(quota: nat, s: State, uid: u32, id: u32)
    requires Inv(quota, s) && MayClose(s.live, uid, id)
    ensures Inv(quota, Step(quota, s, CloseCall(uid, id)))
  {
    hide OwnerKey, WithinQuota;
    var s' := Step(quota, s, CloseCall(uid, id));
    forall j: u32 ensures Known(s', j) <==> Known(s, j) {}
    FewerKeepsQuota(quota, s, s');
  }

  lemma ShutdownKeepsInv(quota: nat, s: State)
    requires Inv(quota, s)
    ensures Inv(quota, Step(quota, s, Shutdown))
  {
    hide OwnerKey, WithinQuota;
    var s' := Step(quota, s, Shutdown);
    forall j: u32 ensures Known(s', j) <==> Known(s, j) {}
    FewerKeepsQuota(quota, s, s');
  }

  lemma StepKeepsInv(quota: nat, s: State, l: Label)
    requires Inv(quota, s) && (l.BeginCreate? ==> s.live.nextId < MAX_ID)
    ensures Inv(quota, Step(quota, s, l))
    ensures Step(quota, s, l).live.nextId == s.live.nextId + if l.BeginCreate? then 1 else 0
  {
    assert s.live.nextId != 0;
    match l
    case BeginCreate(slot) => hide Inv; BeginKeepsInv(quota, s, slot);
    case Register(id) => hide Inv; if id in s.building { RegisterKeepsInv(quota, s, id); }
    case Detach(id) => hide Inv; if id in s.awaiting { DetachKeepsInv(quota, s, id); }
    case CloseCall(uid, id) => hide Inv; if MayClose(s.live, uid, id) { CloseKeepsInv(quota, s, uid, id); }
    case Shutdown => hide Inv; ShutdownKeepsInv(quota, s);
  }

  /** Every interleaving in which the ids do not wrap. */
  lemma {:induction false} RunKeepsInv(quota: nat, ls: seq<Label>)
    requires Creates(ls) < MAX_ID
    ensures Inv(quota, Run(quota, ls)) && Run(quota, ls).live.nextId == 1 + Creates(ls)
  {
    if ls == [] {
      assert forall uid: u32 :: Counted(INIT, uid) == {};
      assert forall id: u32 :: !Known(INIT, id);
    } else {
      hide Inv, Step;
      RunKeepsInv(quota, ls[..|ls| - 1]);
      StepKeepsInv(quota, Run(quota, ls[..|ls| - 1]), ls[|ls| - 1]);
    }
  }

  /** In every interleaving a uid's endpoints not awaiting detachment stay within a non-zero quota,
      no owner key is dangling, and every endpoint ever built is registered, still being built, or
      told to shut down. */
  lemma QuotaHolds(quota: nat, ls: seq<Label>, uid: u32)
    requires Creates(ls) < MAX_ID
    ensures quota > 0 ==> |Counted(Run(quota, ls), uid)| <= quota
    ensures Sound(Run(quota, ls)) && Accounted(Run(quota, ls))
  {
    hide Run;
    RunKeepsInv(quota, ls);
  }

  /** In every interleaving an endpoint that has been built is registered exactly when there is no
      quota, its owner is registered already, or fewer than `quota` endpoints of its uid are. */
  lemma RegistersExactly(quota: nat, ls: seq<Label>, id: u32)
    requires Creates(ls) < MAX_ID && id in Run(quota, ls).building
    ensures var s, slot := Run(quota, ls), Run(quota, ls).building[id];
      var live := s.live;
      id in Run(quota, ls + [Register(id)]).live.byId <==>
        || quota == 0 || OwnerKey(slot) in live.byOwner
        || |set i | i in live.byId && live.byId[i].uid == slot.uid| < quota
  {
    hide Run, OwnerKey, Sound, WithinQuota;
    var s := Run(quota, ls);
    RunKeepsInv(quota, ls);
    RunSnoc(quota, ls, Register(id));
    var slot := s.building[id];
    assert Owned(s.live.byId, slot.uid) == set i | i in s.live.byId && s.live.byId[i].uid == slot.uid;
  }

  // ── Owner keys and ids as inverse bijections ──

  /** Every registered endpoint not awaiting detachment is found under its owner key. */
  ghost predicate Forward(s: State) {
    forall id :: id in s.live.byId && id !in s.awaiting ==>
      OwnerKey(s.live.byId[id]) in s.live.byOwner && s.live.byOwner[OwnerKey(s.live.byId[id])] == id
  }

  /** What the close call can see under its lock: the owner key of the id it removes names another. */
  predicate Misdirected(live: Live, uid: u32, id: u32) {
    && MayClose(live, uid, id)
    && OwnerKey(live.byId[id]) in live.byOwner && live.byOwner[OwnerKey(live.byId[id])] != id
  }

  /** That is the case exactly for an id awaiting detachment whose owner key names the replacement. */
  lemma MisdirectedAwaits(quota: nat, s: State, uid: u32, id: u32)
    requires Inv(quota, s) && Forward(s)
    ensures Misdirected(s.live, uid, id) <==>
              MayClose(s.live, uid, id) && id in s.awaiting && OwnerKey(s.live.byId[id]) in s.live.byOwner
  {
    hide OwnerKey, Accounted, WithinQuota;
  }

  lemma CloseKeepsForwardExactly(quota: nat, s: State, uid: u32, id: u32)
    requires Inv(quota, s) && Forward(s)
    ensures Forward(Step(quota, s, CloseCall(uid, id))) <==> !Misdirected(s.live, uid, id)
  {
    hide OwnerKey, Accounted, WithinQuota;
    if MayClose(s.live, uid, id) {
      var s', key := Step(quota, s, CloseCall(uid, id)), OwnerKey(s.live.byId[id]);
      if Misdirected(s.live, uid, id) {
        var n := s.live.byOwner[key];
        assert n in s'.live.byId && OwnerKey(s'.live.byId[n]) !in s'.live.byOwner;
      }
    }
  }

  lemma RegisterKeepsForward(quota: nat, s: State, id: u32)
    requires Inv(quota, s) && Forward(s) && id in s.building
    ensures Forward(AfterRegister(quota, s, id))
  {
    hide OwnerKey, WithinQuota, OverQuota;
    var s', slot := AfterRegister(quota, s, id), s.building[id];
    forall j | j in s'.live.byId && j !in s'.awaiting
      ensures OwnerKey(s'.live.byId[j]) in s'.live.byOwner && s'.live.byOwner[OwnerKey(s'.live.byId[j])] == j
    {
      if j != id { assert s.live.byOwner[OwnerKey(s.live.byId[j])] == j; }
    }
  }

  /** Of all the lock-held sections only a misdirected close leaves an endpoint under no owner key. */
  lemma StepKeepsForwardExactly(quota: nat, s: State, l: Label)
    requires Inv(quota, s) && Forward(s) && (l.BeginCreate? ==> s.live.nextId < MAX_ID)
    ensures Forward(Step(quota, s, l)) <==> !(l.CloseCall? && Misdirected(s.live, l.uid, l.id))
  {
    assert s.live.nextId != 0;
    match l
    case CloseCall(uid, id) => hide Inv, Forward, Step, Misdirected; CloseKeepsForwardExactly(quota, s, uid, id);
    case Register(id) => hide Inv, Forward, AfterRegister; if id in s.building { RegisterKeepsForward(quota, s, id); }
    case BeginCreate(_) => hide Inv, OwnerKey, FirstFree;
    case Detach(_) => hide Inv, OwnerKey;
    case Shutdown => hide Inv, OwnerKey;
  }

  /** No close of the run meets its owner key naming another id. */
  ghost predicate WellDirected(quota: nat, ls: seq<Label>) {
    forall i :: 0 <= i < |ls| && ls[i].CloseCall? ==> !Misdirected(Run(quota, ls[..i]).live, ls[i].uid, ls[i].id)
  }

  /** Throughout a run every endpoint not awaiting detachment is found under its owner key. */
  ghost predicate AlwaysForward(quota: nat, ls: seq<Label>) {
    forall k :: 0 <= k <= |ls| ==> Forward(Run(quota, ls[..k]))
  }

  /** That is so exactly when no close of the run is misdirected. */
  lemma {:induction false} RunKeepsForwardExactly(quota: nat, ls: seq<Label>)
    requires Creates(ls) < MAX_ID
    ensures AlwaysForward(quota, ls) <==> WellDirected(quota, ls)
  {
    hide Inv, Forward, Step, Misdirected, Run, AlwaysForward, WellDirected;
    if ls == [] {
      NothingRun(quota);
    } else {
      var rest, l := ls[..|ls| - 1], ls[|ls| - 1];
      RunKeepsForwardExactly(quota, rest);
      RunKeepsInv(quota, rest);
      DirectedSnoc(quota, ls);
      AlwaysSnoc(quota, ls);
      RunSnoc(quota, rest, l);
      assert rest + [l] == ls;
      if Forward(Run(quota, rest)) { StepKeepsForwardExactly(quota, Run(quota, rest), l); }
    }
  }

  lemma NothingRun(quota: nat)
    ensures AlwaysForward(quota, []) && WellDirected(quota, [])
  {
  }

  lemma AlwaysSnoc(quota: nat, ls: seq<Label>)
    requires ls != []
    ensures var rest := ls[..|ls| - 1];
      && (AlwaysForward(quota, ls) <==> AlwaysForward(quota, rest) && Forward(Run(quota, ls)))
      && (AlwaysForward(quota, rest) ==> Forward(Run(quota, rest)))
  {
    hide Forward, Run;
    var rest := ls[..|ls| - 1];
    assert ls[..|ls|] == ls && rest[..|rest|] == rest;
    forall k | 0 <= k <= |rest| ensures rest[..k] == ls[..k] {}
  }

  lemma DirectedSnoc(quota: nat, ls: seq<Label>)
    requires ls != []
    ensures var rest, l := ls[..|ls| - 1], ls[|ls| - 1];
      WellDirected(quota, ls) <==>
        WellDirected(quota, rest) && !(l.CloseCall? && Misdirected(Run(quota, rest).live, l.uid, l.id))
  {
    hide Misdirected, Run;
    var rest := ls[..|ls| - 1];
    forall i | 0 <= i < |rest| ensures rest[..i] == ls[..i] && rest[i] == ls[i] {}
  }

  const ONE := Slot(0, "", Normal, Encrypt, Uds)

  /** Two creates of one owner and a close of the first id between the second create's insertion
      and its detachment: the second endpoint stays registered, but under no owner key. */
  lemma CloseDuringReplacement()
    ensures var s := Run(0, [BeginCreate(ONE), Register(1), BeginCreate(ONE), Register(2), CloseCall(0, 1)]);
            2 in s.live.byId && 2 !in s.awaiting && OwnerKey(ONE) !in s.live.byOwner
  {
    hide OwnerKey, Owned, Run, FirstFree;
    var a := [BeginCreate(ONE)];
    var b := a + [Register(1)];
    var c := b + [BeginCreate(ONE)];
    var d := c + [Register(2)];
    RunSnoc(0, [], BeginCreate(ONE));
    RunSnoc(0, a, Register(1));
    RunSnoc(0, b, BeginCreate(ONE));
    RunSnoc(0, c, Register(2));
    RunSnoc(0, d, CloseCall(0, 1));
    assert [] + [BeginCreate(ONE)] == a;
    CycleStart(1);
    CycleStart(2);
    FirstFreeIs({}, 1, 0, 1);
    FirstFreeIs({1}, 2, 0, 2);
    assert INIT.live.byId.Keys == {} && map[1 := ONE].Keys == {1};
    assert Run(0, a) == State(Live(2, map[], map[]), {}, map[1 := ONE], {});
    assert Run(0, b) == State(Live(2, map[1 := ONE], map[OwnerKey(ONE) := 1]), {}, map[], {});
    assert Run(0, c) == State(Live(3, map[1 := ONE], map[OwnerKey(ONE) := 1]), {}, map[2 := ONE], {});
    assert Run(0, d) == State(Live(3, map[1 := ONE, 2 := ONE], map[OwnerKey(ONE) := 2]), {1}, map[], {});
    assert d + [CloseCall(0, 1)] == [BeginCreate(ONE), Register(1), BeginCreate(ONE), Register(2), CloseCall(0, 1)];
  }

  lemma RunSnoc(quota: nat, ls: seq<Label>, l: Label)
    ensures Run(quota, ls + [l]) == Step(quota, Run(quota, ls), l)
    ensures Run(quota, []) == INIT
  {
    hide Step;
    assert (ls + [l])[..|ls|] == ls;
  }

  // ── Whole calls ──

  datatype Call = Create(slot: Slot) | Close(uid: u32, id: u32) | ShutdownAll

  /** A call none of whose sections is interrupted. */
  ghost function Whole(quota: nat, s: State, c: Call): (s': State)
    requires s.live.nextId != 0
    ensures s'.live.nextId != 0
  {
    match c
    case Create(slot) =>
      var id := FirstFree(s.live.byId.Keys, s.live.nextId, 0);
      var s1 := Step(quota, s, BeginCreate(slot));
      var s2 := Step(quota, s1, Register(id));
      if OwnerKey(slot) in s1.live.byOwner then Step(quota, s2, Detach(s1.live.byOwner[OwnerKey(slot)])) else s2
    case Close(uid, id) => Step(quota, s, CloseCall(uid, id))
    case ShutdownAll => Step(quota, s, Shutdown)
  }

  /** Nothing in flight, and the two maps are inverse to each other. */
  ghost predicate Bijective(s: State) {
    s.awaiting == {} && s.building == map[] && Sound(s) && Forward(s)
  }

  lemma CreateKeepsBijective(quota: nat, s: State, slot: Slot)
    requires Inv(quota, s) && Bijective(s) && s.live.nextId < MAX_ID
    ensures Bijective(Whole(quota, s, Create(slot)))
  {
    hide OwnerKey, FirstFree, Accounted, WithinQuota, Owned;
    var id, key := s.live.nextId, OwnerKey(slot);
    BeginKeepsInv(quota, s, slot);
    var s1 := Step(quota, s, BeginCreate(slot));
    RegisterKeepsInv(quota, s1, id);
    IdIsNew(s);
    var s2 := Step(quota, s1, Register(id));
    assert s1.building == map[id := slot] && s2.building == map[];
    if key in s.live.byOwner {
      var oldId := s.live.byOwner[key];
      assert !OverQuota(quota, s1.live, slot);
      assert s2.awaiting == {oldId};
      DetachKeepsInv(quota, s2, oldId);
      forall j | j in s2.live.byId && j != oldId
        ensures OwnerKey(s2.live.byId[j]) in s2.live.byOwner && s2.live.byOwner[OwnerKey(s2.live.byId[j])] == j
      {
        if j != id { assert s.live.byOwner[OwnerKey(s.live.byId[j])] == j; }
      }
    } else {
      forall j | j in s2.live.byId
        ensures OwnerKey(s2.live.byId[j]) in s2.live.byOwner && s2.live.byOwner[OwnerKey(s2.live.byId[j])] == j
      {
        if j in s.live.byId { assert s.live.byOwner[OwnerKey(s.live.byId[j])] == j; }
      }
    }
  }

  lemma IdIsNew(s: State)
    requires Accounted(s)
    ensures s.live.nextId !in s.live.byId
  {
    assert !Known(s, s.live.nextId);
  }

  /** Runs of whole calls keep the two maps inverse bijections. */
  lemma WholeKeepsBijective(quota: nat, s: State, c: Call)
    requires Inv(quota, s) && Bijective(s) && s.live.nextId < MAX_ID
    ensures Bijective(Whole(quota, s, c)) && Inv(quota, Whole(quota, s, c))
    ensures Whole(quota, s, c).live.nextId <= s.live.nextId + 1
  {
    match c
    case Create(slot) =>
      hide Bijective, Inv, Step, OwnerKey, FirstFree;
      CreateKeepsBijective(quota, s, slot);
      CreateKeepsInv(quota, s, slot);
    case Close(uid, id) =>
      assert s.live.nextId != 0;
      hide OwnerKey, Inv;
      StepKeepsInv(quota, s, CloseCall(uid, id));
      CloseKeepsForwardExactly(quota, s, uid, id);
      SoundOf(quota, Step(quota, s, CloseCall(uid, id)));
    case ShutdownAll =>
      hide OwnerKey, Inv;
      StepKeepsInv(quota, s, Shutdown);
  }

  lemma SoundOf(quota: nat, s: State)
    requires Inv(quota, s)
    ensures Sound(s)
  {
  }

  lemma CreateKeepsInv(quota: nat, s: State, slot: Slot)
    requires Inv(quota, s) && s.live.nextId < MAX_ID
    ensures Inv(quota, Whole(quota, s, Create(slot)))
    ensures Whole(quota, s, Create(slot)).live.nextId == s.live.nextId + 1
  {
    assert s.live.nextId != 0;
    hide Inv, Step, OwnerKey, FirstFree;
    var id := FirstFree(s.live.byId.Keys, s.live.nextId, 0);
    var s1 := Step(quota, s, BeginCreate(slot));
    StepKeepsInv(quota, s, BeginCreate(slot));
    StepKeepsInv(quota, s1, Register(id));
    var s2 := Step(quota, s1, Register(id));
    if OwnerKey(slot) in s1.live.byOwner { StepKeepsInv(quota, s2, Detach(s1.live.byOwner[OwnerKey(slot)])); }
  }

  ghost function Calls(quota: nat, cs: seq<Call>): (s: State)
    ensures s.live.nextId != 0
  {
    if cs == [] then INIT else Whole(quota, Calls(quota, cs[..|cs| - 1]), cs[|cs| - 1])
  }

  lemma {:induction false} CallsKeepBijective(quota: nat, cs: seq<Call>)
    requires |cs| < MAX_ID
    ensures Bijective(Calls(quota, cs)) && Inv(quota, Calls(quota, cs))
    ensures Calls(quota, cs).live.nextId <= 1 + |cs|
  {
    if cs == [] {
      RunKeepsInv(quota, []);
    } else {
      hide Bijective, Inv, Whole;
      CallsKeepBijective(quota, cs[..|cs| - 1]);
      WholeKeepsBijective(quota, Calls(quota, cs[..|cs| - 1]), cs[|cs| - 1]);
    }
  }
}
