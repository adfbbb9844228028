/** Traffic classification: first-match over the compiled rules, answered from the cache when it
    can be. Concurrent classifications interleave between the lookup, the id draw and the insert. */
module Classifier {
  import opened Words
  import opened OwnerKeys
  import opened Addresses
  import opened FlowCache

  datatype Rule = Rule(source: Pattern, destination: Pattern, app: string, cls: TrafficClass)

  predicate Compiled(rules: seq<Rule>) {
    forall i :: 0 <= i < |rules| ==> Parsed(rules[i].source) && Parsed(rules[i].destination)
  }

  /** The rule is for this flow: its source covers the sender and its destination the receiver. */
  ghost predicate IsFor(r: Rule, flow: Flow)
    requires Parsed(r.source) && Parsed(r.destination)
  {
    Covers(r.source, flow.src) && Covers(r.destination, flow.dst)
  }

  datatype Verdict = NoRule | Verdict(app: string, cls: TrafficClass)

  /** What the rules say about a flow: the first that is for it wins. */
  ghost predicate Says(rules: seq<Rule>, flow: Flow, v: Verdict)
    requires Compiled(rules)
  {
    if v.NoRule? then forall i :: 0 <= i < |rules| ==> !IsFor(rules[i], flow)
    else exists i ::
      && 0 <= i < |rules| && IsFor(rules[i], flow) && v == Verdict(rules[i].app, rules[i].cls)
      && forall j :: 0 <= j < i ==> !IsFor(rules[j], flow)
  }

  lemma SaysOneThing(rules: seq<Rule>, flow: Flow, v: Verdict, w: Verdict)
    requires Compiled(rules) && Says(rules, flow, v) && Says(rules, flow, w)
    ensures v == w
  {
    hide IsFor;
  }

  /** Walk the rules in order. */
  method FirstMatch(rules: seq<Rule>, flow: Flow) returns (v: Verdict)
    requires Compiled(rules)
    ensures Says(rules, flow, v)
  {
    for i := 0 to |rules|
      invariant forall j :: 0 <= j < i ==> !IsFor(rules[j], flow)
    {
      var r := rules[i];
      MatchesExactly(r.source, flow.src);
      MatchesExactly(r.destination, flow.dst);
      hide Matches, Covers;
      if Matches(r.source, flow.src) && Matches(r.destination, flow.dst) { return Verdict(r.app, r.cls); }
    }
    v := NoRule;
  }

  // ── The analyzer ──

  datatype Result = Unclassified | Classified(id: u64, app: string, cls: TrafficClass)

  function VerdictOf(r: Result): Verdict { if r.Unclassified? then NoRule else Verdict(r.app, r.cls) }

  /** Every entry repeats what the rules say of its flow. */
  ghost predicate Truthful(rules: seq<Rule>, c: Cache)
    requires Compiled(rules)
  {
    forall f :: f in c.entries ==> Says(rules, f, Verdict(c.entries[f].app, c.entries[f].cls))
  }

  lemma InsertTruthful(rules: seq<Rule>, maxEntries: nat, c: Cache, flow: Flow, e: Entry)
    requires Compiled(rules) && Truthful(rules, c) && Recorded(c) && |c.entries| <= Max(1, maxEntries)
    requires Says(rules, flow, Verdict(e.app, e.cls))
    ensures Truthful(rules, Insert(maxEntries, c, flow, e))
  {
    hide Says, Insert, Recorded;
    InsertKeeps(maxEntries, c, flow, e);
  }

  class Analyzer {
    const cache: TrafficCache
    const rules: seq<Rule>
    var nextId: u64

    ghost predicate Valid()
      reads this, cache
    {
      Compiled(rules) && cache.Valid() && Truthful(rules, cache.View())
    }

    constructor (rules: seq<Rule>, cache: TrafficCache)
      requires Compiled(rules) && cache.Valid() && cache.View() == Cache(map[], [])
      ensures Valid() && nextId == 1 && this.rules == rules && this.cache == cache
    {
      this.rules, this.cache, nextId := rules, cache, 1;
    }

    /** Cached or not, the answer is what the rules say; a miss draws the next id. */
    method Classify(src: SocketAddr, dst: SocketAddr, now: nat, later: nat) returns (r: Result)
      requires Valid()
      modifies this, cache
      ensures Valid() && Says(rules, Flow(src, dst), VerdictOf(r))
      ensures var flow, es := Flow(src, dst), old(cache.entries);
        var hit := flow in es && Max(now - es[flow].at, 0) < cache.ttl;
        && (hit ==> r == Classified(es[flow].id, es[flow].app, es[flow].cls))
        && (hit || r.Unclassified? ==> nextId == old(nextId) && cache.View() == old(cache.View()))
        && (!hit && r.Classified? ==>
              && r.id == old(nextId) && nextId == WrappingAdd(old(nextId), 1)
              && cache.View() == Insert(cache.maxEntries, old(cache.View()), flow, Entry(r.id, r.app, r.cls, later)))
    {
      hide Says, Insert, Recorded;
      var flow := Flow(src, dst);
      var hit := cache.Get(flow, now);
      if hit.Hit? { return Classified(hit.entry.id, hit.entry.app, hit.entry.cls); }
      var v := FirstMatch(rules, flow);
      if v.NoRule? { return Unclassified; }
      var id := nextId;
      nextId := WrappingAdd(nextId, 1);
      InsertTruthful(rules, cache.maxEntries, cache.View(), flow, Entry(id, v.app, v.cls, later));
      cache.Put(flow, id, v.app, v.cls, later);
      r := Classified(id, v.app, v.cls);
    }
  }

  // ── Concurrent classifications ──
  //
  // A miss of `Classify` is a draw and a store (`MissIsDrawAndStore`); a hit changes nothing.

  /** A classification that missed the cache and has drawn an id, but not yet inserted. */
  datatype Pending = Pending(flow: Flow, n: nat, app: string, cls: TrafficClass)

  /** `drawn` counts the ids drawn; id `n` is drawn as `n` modulo 2^64. */
  datatype State = State(cache: Cache, drawn: nat, pending: set<Pending>, numbers: map<Flow, nat>)

  datatype Label =
    | Draw(flow: Flow, v: Verdict)     // miss, match, draw an id
    | Store(p: Pending, now: nat)      // insert under the write lock
    | Clear

  function IdOf(n: nat): u64 { n % U64_SPAN }

  ghost function Step(maxEntries: nat, rules: seq<Rule>, s: State, l: Label): State
    requires Compiled(rules)
  {
    match l
    case Draw(flow, v) =>
      if v.NoRule? || !Says(rules, flow, v) then s
      else s.(drawn := s.drawn + 1, pending := s.pending + {Pending(flow, s.drawn, v.app, v.cls)})
    case Store(p, now) =>
      if p !in s.pending then s
      else s.(cache := Insert(maxEntries, s.cache, p.flow, Entry(IdOf(p.n), p.app, p.cls, now)),
              pending := s.pending - {p},
              numbers := s.numbers[p.flow := p.n])
    case Clear => s.(cache := Cache(map[], []))
  }

  /** What a classification that misses leaves behind is what its two steps leave when nobody comes between. */
  lemma MissIsDrawAndStore(maxEntries: nat, rules: seq<Rule>, s: State, flow: Flow, v: Verdict, now: nat)
    requires Compiled(rules) && !v.NoRule? && Says(rules, flow, v) && Pending(flow, s.drawn, v.app, v.cls) !in s.pending
    ensures var id := IdOf(s.drawn);
      var s' := Step(maxEntries, rules, Step(maxEntries, rules, s, Draw(flow, v)), Store(Pending(flow, s.drawn, v.app, v.cls), now));
      && s'.cache == Insert(maxEntries, s.cache, flow, Entry(id, v.app, v.cls, now))
      && IdOf(s'.drawn) == WrappingAdd(id, 1) && s'.pending == s.pending
      && (s.drawn < U64_SPAN ==> id == s.drawn)
  {
    hide Says, Insert;
  }

  const START := State(Cache(map[], []), 1, {}, map[])

  ghost function Run(maxEntries: nat, rules: seq<Rule>, ls: seq<Label>): State
    requires Compiled(rules)
  {
    if ls == [] then START else Step(maxEntries, rules, Run(maxEntries, rules, ls[..|ls| - 1]), ls[|ls| - 1])
  }

  /** Live entries and pending inserts carry distinct numbers among those drawn. */
  ghost predicate Numbered(s: State) {
    && (forall f :: f in s.cache.entries ==>
          f in s.numbers && s.numbers[f] < s.drawn && s.cache.entries[f].id == IdOf(s.numbers[f]))
    && (forall f, g :: f in s.numbers && g in s.numbers && f != g ==> s.numbers[f] != s.numbers[g])
    && (forall f, p :: f in s.numbers && p in s.pending ==> s.numbers[f] != p.n)
    && (forall p, q :: p in s.pending && q in s.pending && p != q ==> p.n != q.n)
    && (forall f :: f in s.numbers ==> s.numbers[f] < s.drawn)
    && (forall p :: p in s.pending ==> p.n < s.drawn)
  }

  ghost predicate Inv(maxEntries: nat, rules: seq<Rule>, s: State)
    requires Compiled(rules)
  {
    && Recorded(s.cache) && |s.cache.entries| <= Max(1, maxEntries)
    && Truthful(rules, s.cache)
    && (forall p :: p in s.pending ==> Says(rules, p.flow, Verdict(p.app, p.cls)))
    && Numbered(s)
  }

  lemma StoreKeepsNumbered(s: State, p: Pending, e: Entry, c: Cache)
    requires Numbered(s) && p in s.pending && e.id == IdOf(p.n)
    requires p.flow in c.entries && c.entries[p.flow] == e
    requires forall f :: f in c.entries && f != p.flow ==> f in s.cache.entries && c.entries[f] == s.cache.entries[f]
    ensures Numbered(s.(cache := c, pending := s.pending - {p}, numbers := s.numbers[p.flow := p.n]))
  {
    hide IdOf;
  }

  lemma DrawKeepsNumbered(s: State, p: Pending)
    requires Numbered(s) && p.n == s.drawn
    ensures Numbered(s.(drawn := s.drawn + 1, pending := s.pending + {p}))
  {
    hide IdOf;
  }

  lemma DrawKeepsInv(maxEntries: nat, rules: seq<Rule>, s: State, flow: Flow, v: Verdict)
    requires Compiled(rules) && Inv(maxEntries, rules, s) && !v.NoRule? && Says(rules, flow, v)
    ensures Inv(maxEntries, rules, Step(maxEntries, rules, s, Draw(flow, v)))
  {
    hide Says, Recorded, Truthful, Numbered;
    DrawKeepsNumbered(s, Pending(flow, s.drawn, v.app, v.cls));
  }

  lemma StoreKeepsInv(maxEntries: nat, rules: seq<Rule>, s: State, p: Pending, now: nat)
    requires Compiled(rules) && Inv(maxEntries, rules, s) && p in s.pending
    ensures Inv(maxEntries, rules, Step(maxEntries, rules, s, Store(p, now)))
  {
    hide Says, Insert, Recorded, IdOf, Truthful, Numbered;
    var e := Entry(IdOf(p.n), p.app, p.cls, now);
    InsertKeeps(maxEntries, s.cache, p.flow, e);
    InsertTruthful(rules, maxEntries, s.cache, p.flow, e);
    StoreKeepsNumbered(s, p, e, Insert(maxEntries, s.cache, p.flow, e));
  }

  lemma ClearKeepsInv(maxEntries: nat, rules: seq<Rule>, s: State)
    requires Compiled(rules) && Inv(maxEntries, rules, s)
    ensures Inv(maxEntries, rules, Step(maxEntries, rules, s, Clear))
  {
    hide Says, Recorded;
    NothingRecorded();
  }

  lemma StepKeepsInv(maxEntries: nat, rules: seq<Rule>, s: State, l: Label)
    requires Compiled(rules) && Inv(maxEntries, rules, s)
    ensures Inv(maxEntries, rules, Step(maxEntries, rules, s, l))
  {
    hide Inv, Says, Insert, IdOf;
    match l
    case Draw(flow, v) => if !v.NoRule? && Says(rules, flow, v) { DrawKeepsInv(maxEntries, rules, s, flow, v); }
    case Clear => ClearKeepsInv(maxEntries, rules, s);
    case Store(p, now) => if p in s.pending { StoreKeepsInv(maxEntries, rules, s, p, now); }
  }

  lemma NothingRecorded()
    ensures Recorded(Cache(map[], []))
  {
  }

  lemma {:induction false} RunKeepsInv(maxEntries: nat, rules: seq<Rule>, ls: seq<Label>)
    requires Compiled(rules)
    ensures Inv(maxEntries, rules, Run(maxEntries, rules, ls))
  {
    if ls != [] {
      hide Inv, Step;
      RunKeepsInv(maxEntries, rules, ls[..|ls| - 1]);
      StepKeepsInv(maxEntries, rules, Run(maxEntries, rules, ls[..|ls| - 1]), ls[|ls| - 1]);
    }
  }

  /** In every reachable state a cached answer is what first-match over the rules gives, whatever
      was expired, evicted or cleared in between. */
  lemma CachedAnswersAreFirstMatch(maxEntries: nat, rules: seq<Rule>, ls: seq<Label>, flow: Flow, v: Verdict)
    requires Compiled(rules) && Says(rules, flow, v)
    ensures var c := Run(maxEntries, rules, ls).cache;
            flow in c.entries ==> v == Verdict(c.entries[flow].app, c.entries[flow].cls)
    ensures |Run(maxEntries, rules, ls).cache.entries| <= Max(1, maxEntries)
  {
    hide Run, Says;
    RunKeepsInv(maxEntries, rules, ls);
    var c := Run(maxEntries, rules, ls).cache;
    if flow in c.entries { SaysOneThing(rules, flow, v, Verdict(c.entries[flow].app, c.entries[flow].cls)); }
  }

  /** Distinct flows in the cache at once carry distinct ids, as long as fewer than 2^64 were drawn. */
  lemma DistinctIds(maxEntries: nat, rules: seq<Rule>, ls: seq<Label>, f: Flow, g: Flow)
    requires Compiled(rules) && f != g && Run(maxEntries, rules, ls).drawn <= U64_SPAN
    requires f in Run(maxEntries, rules, ls).cache.entries && g in Run(maxEntries, rules, ls).cache.entries
    ensures Run(maxEntries, rules, ls).cache.entries[f].id != Run(maxEntries, rules, ls).cache.entries[g].id
  {
    hide Run, Says, Recorded, Truthful, IdOf;
    RunKeepsInv(maxEntries, rules, ls);
    var s := Run(maxEntries, rules, ls);
    IdsDiffer(s.numbers[f], s.numbers[g]);
  }

  lemma IdsDiffer(m: nat, n: nat)
    requires m < U64_SPAN && n < U64_SPAN && m != n
    ensures IdOf(m) != IdOf(n)
  {
  }
}
