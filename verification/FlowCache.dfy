/** The traffic classification cache: an entry map and an insertion queue for oldest-first
    eviction, whose records go stale when a flow is inserted again. */
module FlowCache {
  import opened Words
  import opened OwnerKeys
  import opened Addresses

  datatype Flow = Flow(src: SocketAddr, dst: SocketAddr)

  datatype Entry = Entry(id: u64, app: string, cls: TrafficClass, at: nat)

  datatype Record = Record(flow: Flow, at: nat)

  datatype Cache = Cache(entries: map<Flow, Entry>, order: seq<Record>)

  predicate IsLive(c: Cache, r: Record) { r.flow in c.entries && c.entries[r.flow].at == r.at }

  /** Pop the oldest record, and the entry it stands for unless the record is stale. */
  function PopFront(c: Cache): Cache
    requires c.order != []
  {
    Cache(if IsLive(c, c.order[0]) then c.entries - {c.order[0].flow} else c.entries, c.order[1..])
  }

  /** Evict until there is room, or the queue is drained. */
  function Trim(maxEntries: nat, c: Cache): Cache
    decreases |c.order|
  {
    if |c.entries| < maxEntries || c.order == [] then c else Trim(maxEntries, PopFront(c))
  }

  function Insert(maxEntries: nat, c: Cache, flow: Flow, e: Entry): Cache {
    var c' := if flow in c.entries then c else Trim(maxEntries, c);
    Cache(c'.entries[flow := e], c'.order + [Record(flow, e.at)])
  }

  // ── The cache object ──

  datatype Hit = Miss | Hit(entry: Entry)

  class TrafficCache {
    const maxEntries: nat
    const ttl: nat
    var entries: map<Flow, Entry>
    var order: seq<Record>
    ghost var pops: nat
    ghost var inserts: nat

    ghost function View(): Cache
      reads this
    {
      Cache(entries, order)
    }

    /** Every live entry has a record, the size is bounded, and every pop undoes an insert. */
    ghost predicate Valid()
      reads this
    {
      Recorded(View()) && |entries| <= Max(1, maxEntries) && pops + |order| <= inserts
    }

    constructor (maxEntries: nat, ttl: nat)
      ensures Valid() && View() == Cache(map[], []) && this.maxEntries == maxEntries && this.ttl == ttl
      ensures pops == inserts == 0
    {
      this.maxEntries, this.ttl := maxEntries, ttl;
      entries, order := map[], [];
      pops, inserts := 0, 0;
    }

    method Get(flow: Flow, now: nat) returns (r: Hit)
      ensures r == if flow in entries && Max(now - entries[flow].at, 0) < ttl then Hit(entries[flow]) else Miss
    {
      if flow in entries {
        var e := entries[flow];
        if Max(now - e.at, 0) < ttl { return Hit(e); }
      }
      r := Miss;
    }

    /** The eviction loop. The arm for a drained queue is taken only by a cache of no entries at all. */
    method Put(flow: Flow, id: u64, app: string, cls: TrafficClass, now: nat)
      requires Valid()
      modifies this
      ensures View() == Insert(maxEntries, old(View()), flow, Entry(id, app, cls, now))
      ensures Valid() && inserts == old(inserts) + 1 && pops >= old(pops)
    {
      hide Trim, Recorded;
      ghost var c := View();
      if flow !in entries {
        while |entries| >= maxEntries
          invariant Trim(maxEntries, View()) == Trim(maxEntries, c) && Recorded(View())
          invariant pops + |order| <= inserts && pops >= old(pops) && inserts == old(inserts)
          invariant flow !in entries
          decreases |order|
        {
          TrimUnfold(maxEntries, View());
          if order == [] {
            DrainedMeansEmpty(View());
            assert maxEntries == 0;
            break;
          }
          PopKeepsRecorded(View());
          var r := order[0];
          order := order[1..];
          if r.flow in entries && entries[r.flow].at == r.at { entries := entries - {r.flow}; }
          pops := pops + 1;
        }
        TrimUnfold(maxEntries, View());
      }
      RecordKept(View(), flow, Entry(id, app, cls, now));
      entries := entries[flow := Entry(id, app, cls, now)];
      order := order + [Record(flow, now)];
      inserts := inserts + 1;
    }

    method Clear()
      requires Valid()
      modifies this
      ensures Valid() && View() == Cache(map[], []) && pops == old(pops) && inserts == old(inserts)
    {
      entries, order := map[], [];
    }
  }

  // ── Invariants of the cache ──

  /** Every live entry has its own record in the queue. */
  ghost predicate Recorded(c: Cache) {
    forall f :: f in c.entries ==> Record(f, c.entries[f].at) in c.order
  }

  lemma TrimUnfold(maxEntries: nat, c: Cache)
    ensures Trim(maxEntries, c) == if |c.entries| < maxEntries || c.order == [] then c else Trim(maxEntries, PopFront(c))
  {
  }

  lemma DrainedMeansEmpty(c: Cache)
    requires Recorded(c) && c.order == []
    ensures c.entries == map[] && |c.entries| == 0
  {
    assert forall f :: f !in c.entries;
  }

  /** A popped record was the live one of an entry that goes with it, or nobody's. */
  lemma PopKeepsRecorded(c: Cache)
    requires Recorded(c) && c.order != []
    ensures Recorded(PopFront(c))
  {
    var c' := PopFront(c);
    forall f | f in c'.entries ensures Record(f, c'.entries[f].at) in c'.order {
      var r := Record(f, c.entries[f].at);
      var i :| 0 <= i < |c.order| && c.order[i] == r;
      assert i > 0;
      assert c'.order[i - 1] == r;
    }
  }

  lemma RecordKept(c: Cache, flow: Flow, e: Entry)
    requires Recorded(c)
    ensures Recorded(Cache(c.entries[flow := e], c.order + [Record(flow, e.at)]))
  {
    var c' := Cache(c.entries[flow := e], c.order + [Record(flow, e.at)]);
    forall f | f in c'.entries ensures Record(f, c'.entries[f].at) in c'.order {
      if f == flow {
        assert c'.order[|c.order|] == Record(flow, e.at);
      } else {
        var i :| 0 <= i < |c.order| && c.order[i] == Record(f, c.entries[f].at);
        assert c'.order[i] == Record(f, c'.entries[f].at);
      }
    }
  }

  /** Eviction makes room, and only removes. */
  lemma {:induction false} TrimMakesRoom(maxEntries: nat, c: Cache)
    requires Recorded(c)
    ensures var t := Trim(maxEntries, c);
      && Recorded(t) && (maxEntries > 0 ==> |t.entries| < maxEntries) && (maxEntries == 0 ==> t.entries == map[])
      && forall f :: f in t.entries ==> f in c.entries && t.entries[f] == c.entries[f]
    decreases |c.order|
  {
    hide Trim, Recorded;
    TrimUnfold(maxEntries, c);
    if |c.entries| >= maxEntries {
      if c.order == [] {
        DrainedMeansEmpty(c);
      } else {
        PopKeepsRecorded(c);
        TrimMakesRoom(maxEntries, PopFront(c));
      }
    }
  }

  /** Nothing is evicted while there is room, or when a flow renews its entry. */
  lemma InsertWithRoom(maxEntries: nat, c: Cache, flow: Flow, e: Entry)
    requires |c.entries| < maxEntries || flow in c.entries
    ensures Insert(maxEntries, c, flow, e).entries == c.entries[flow := e]
  {
    hide Trim;
    TrimUnfold(maxEntries, c);
  }

  lemma InsertKeeps(maxEntries: nat, c: Cache, flow: Flow, e: Entry)
    requires Recorded(c) && |c.entries| <= Max(1, maxEntries)
    ensures var c' := Insert(maxEntries, c, flow, e);
      && Recorded(c') && |c'.entries| <= Max(1, maxEntries)
      && flow in c'.entries && c'.entries[flow] == e
      && forall f :: f in c'.entries && f != flow ==> f in c.entries && c'.entries[f] == c.entries[f]
  {
    hide Trim, Recorded;
    TrimMakesRoom(maxEntries, c);
    var c1 := if flow in c.entries then c else Trim(maxEntries, c);
    RecordKept(c1, flow, e);
    var m := c1.entries[flow := e];
    assert m.Keys == c1.entries.Keys + {flow};
    assert |c1.entries.Keys| == |c1.entries| && |m| == |m.Keys|;
  }

  // ── Oldest first ──

  /** Records in strictly increasing order of time. */
  ghost predicate Increasing(order: seq<Record>) {
    forall i, j :: 0 <= i < j < |order| ==> order[i].at < order[j].at
  }

  /** A live record at the front belongs to the oldest entry. */
  lemma FrontIsOldest(c: Cache)
    requires Recorded(c) && Increasing(c.order) && c.order != [] && IsLive(c, c.order[0])
    ensures forall f :: f in c.entries ==> c.order[0].at <= c.entries[f].at
  {
    forall f | f in c.entries ensures c.order[0].at <= c.entries[f].at {
      var i :| 0 <= i < |c.order| && c.order[i] == Record(f, c.entries[f].at);
    }
  }

  lemma RemovedCount(m: map<Flow, Entry>, f: Flow)
    requires f in m
    ensures |m - {f}| == |m| - 1
  {
    assert (m - {f}).Keys == m.Keys - {f};
    assert |m| == |m.Keys| && |m - {f}| == |(m - {f}).Keys|;
  }

  lemma TailIncreasing(order: seq<Record>)
    requires Increasing(order) && order != []
    ensures Increasing(order[1..])
  {
  }

  /** With strictly increasing times, the one entry evicted from a full cache is the oldest. */
  lemma {:induction false} TrimEvictsOldest(maxEntries: nat, c: Cache) returns (oldest: Flow)
    requires Recorded(c) && Increasing(c.order) && |c.entries| == maxEntries > 0
    ensures oldest in c.entries && Trim(maxEntries, c).entries == c.entries - {oldest}
    ensures forall f :: f in c.entries ==> c.entries[oldest].at <= c.entries[f].at
    ensures Increasing(Trim(maxEntries, c).order)
    decreases |c.order|
  {
    hide Trim, Recorded, Increasing;
    if c.order == [] { DrainedMeansEmpty(c); }
    TrimUnfold(maxEntries, c);
    PopKeepsRecorded(c);
    TailIncreasing(c.order);
    if IsLive(c, c.order[0]) {
      oldest := c.order[0].flow;
      FrontIsOldest(c);
      RemovedCount(c.entries, oldest);
      TrimUnfold(maxEntries, PopFront(c));
    } else {
      oldest := TrimEvictsOldest(maxEntries, PopFront(c));
    }
  }

  /** An insertion later than every record keeps the queue in order, and into a full cache takes the
      place of the oldest entry. */
  lemma InsertEvictsOldest(maxEntries: nat, c: Cache, flow: Flow, e: Entry) returns (oldest: Flow)
    requires Recorded(c) && Increasing(c.order) && |c.entries| == maxEntries > 0 && flow !in c.entries
    requires forall r :: r in c.order ==> r.at < e.at
    ensures oldest in c.entries && forall f :: f in c.entries ==> c.entries[oldest].at <= c.entries[f].at
    ensures Insert(maxEntries, c, flow, e).entries == (c.entries - {oldest})[flow := e]
    ensures Increasing(Insert(maxEntries, c, flow, e).order)
  {
    hide Trim;
    oldest := TrimEvictsOldest(maxEntries, c);
    TrimSuffix(maxEntries, c);
  }

  /** Insertions at strictly increasing times keep the queue in order, whatever they evict. */
  lemma InsertKeepsIncreasing(maxEntries: nat, c: Cache, flow: Flow, e: Entry)
    requires Increasing(c.order) && forall r :: r in c.order ==> r.at < e.at
    ensures Increasing(Insert(maxEntries, c, flow, e).order)
    ensures forall r :: r in Insert(maxEntries, c, flow, e).order ==> r.at <= e.at
  {
    hide Trim;
    TrimSuffix(maxEntries, c);
    TrimIncreasing(maxEntries, c);
  }

  lemma {:induction false} TrimIncreasing(maxEntries: nat, c: Cache)
    requires Increasing(c.order)
    ensures Increasing(Trim(maxEntries, c).order)
    decreases |c.order|
  {
    hide Trim, Increasing;
    TrimUnfold(maxEntries, c);
    if |c.entries| >= maxEntries && c.order != [] {
      TailIncreasing(c.order);
      TrimIncreasing(maxEntries, PopFront(c));
    }
  }

  lemma {:induction false} TrimSuffix(maxEntries: nat, c: Cache)
    ensures forall r :: r in Trim(maxEntries, c).order ==> r in c.order
    decreases |c.order|
  {
    hide Trim;
    TrimUnfold(maxEntries, c);
    if |c.entries| >= maxEntries && c.order != [] { TrimSuffix(maxEntries, PopFront(c)); }
  }
}
