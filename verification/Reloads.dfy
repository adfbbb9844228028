/** Hot reload: the configuration swap, the watcher's guard, and the handler that stops and starts
    rule threads through per-rule shutdown flags and reconciles the firewall. A started thread hands
    its rule to a security provider, which goes on to bind the address or refuses the rule at once. */
module Reloads {
  import opened Options
  import opened OwnerKeys
  import opened ConfigDiffs

  /** Rules started at startup; the others are templates for endpoints created on demand. */
  predicate Static(r: Rule) { r.listenProto.Tcp? || r.listenProto.Udp? }

  // ── What a reload does to the running rules ──

  function NameSet(ns: seq<string>): set<string> { set n | n in ns }

  lemma OneMoreName(ns: seq<string>, i: nat)
    requires i < |ns|
    ensures NameSet(ns[..i + 1]) == NameSet(ns[..i]) + {ns[i]}
  {
  }

  lemma MinusMore(m: map<string, Rule>, s: set<string>, n: string)
    ensures (m - s) - {n} == m - (s + {n})
  {
  }

  /** Stop the removed, start the added, restart the changed. */
  function AfterReload(active: map<string, Rule>, d: Diff): map<string, Rule> {
    (active - NameSet(d.removed)) + ByName(d.added) + ByName(d.changed)
  }

  /** Only rules of the configuration run, each agreeing with it on everything a reload re-applies. */
  ghost predicate Agrees(active: map<string, Rule>, c: Config) {
    forall n :: n in active ==> n in ByName(c) && active[n].name == n && Alike(active[n], ByName(c)[n])
  }

  /** Every static rule of the configuration runs. */
  ghost predicate Covers(active: map<string, Rule>, c: Config) {
    forall r :: r in c && Static(r) ==> r.name in active
  }

  ghost predicate IsDiff(d: Diff, prev: Config, next: Config) {
    && d.added == Filter(IsAdded(ByName(prev)), next)
    && d.changed == Filter(IsChanged(ByName(prev)), next)
    && d.removed == Names(Filter(IsRemoved(ByName(next)), prev))
    && d.interceptChanged == (Projection(prev) != Projection(next))
  }

  lemma RemovedNames(d: Diff, prev: Config, next: Config, n: string)
    requires IsDiff(d, prev, next)
    ensures n in d.removed <==> n in ByName(prev) && n !in ByName(next)
  {
    hide Projection, ByName, Alike, Filter, Names;
    NamesOf(Filter(IsRemoved(ByName(next)), prev), n);
    if n in ByName(prev) && n !in ByName(next) {
      assert ByName(prev)[n] in Filter(IsRemoved(ByName(next)), prev);
    }
  }

  /** Where the buckets put a rule of the new configuration. */
  lemma BucketOf(d: Diff, prev: Config, next: Config, r: Rule)
    requires IsDiff(d, prev, next) && r in next
    ensures r in d.added <==> r.name !in ByName(prev)
    ensures r in d.changed <==> r.name in ByName(prev) && !Alike(ByName(prev)[r.name], r)
  {
    hide Projection, ByName, Alike;
  }

  lemma FromNew(d: Diff, prev: Config, next: Config, r: Rule)
    requires IsDiff(d, prev, next) && (r in d.added || r in d.changed)
    ensures r in next
  {
    hide Projection, ByName, Alike;
  }

  /** One reload keeps the running rules in agreement with the configuration. */
  lemma ReloadAgrees(active: map<string, Rule>, d: Diff, prev: Config, next: Config)
    requires UniqueNames(prev) && UniqueNames(next) && IsDiff(d, prev, next) && Agrees(active, prev)
    ensures Agrees(AfterReload(active, d), next)
  {
    hide Projection, Alike, IsDiff, UniqueNames;
    var after := AfterReload(active, d);
    forall n | n in after
      ensures n in ByName(next) && after[n].name == n && Alike(after[n], ByName(next)[n])
    {
      var r := after[n];
      AgreementIsEquivalence(r, r, r);
      if n in ByName(d.changed) || n in ByName(d.added) {
        FromNew(d, prev, next, r);
        ByNameFinds(next, r);
      } else {
        RemovedNames(d, prev, next, n);
        var q := ByName(next)[n];
        BucketOf(d, prev, next, q);
        AgreementIsEquivalence(r, ByName(prev)[n], q);
      }
    }
  }

  lemma ReloadCovers(active: map<string, Rule>, d: Diff, prev: Config, next: Config)
    requires UniqueNames(prev) && UniqueNames(next) && IsDiff(d, prev, next) && Covers(active, prev)
    ensures Covers(AfterReload(active, d), next)
  {
    hide Projection, Alike, IsDiff, UniqueNames;
    forall r | r in next && Static(r) ensures r.name in AfterReload(active, d) {
      BucketOf(d, prev, next, r);
      RemovedNames(d, prev, next, r.name);
      if r.name in ByName(prev) && Alike(ByName(prev)[r.name], r) {
        AgreementIsEquivalence(ByName(prev)[r.name], r, r);
        assert ByName(prev)[r.name] in prev;
      }
    }
  }

  // ── Bookkeeping of the handler's loops ──

  function IsStatic(): Rule -> bool { (r: Rule) => Static(r) }

  lemma ByNameSnoc(s: seq<Rule>, i: nat)
    requires i < |s|
    ensures ByName(s[..i + 1]) == ByName(s[..i])[s[i].name := s[i]]
    ensures UniqueNames(s) ==> s[i].name !in ByName(s[..i])
  {
    assert s[..i + 1][..i] == s[..i];
    if s[i].name in ByName(s[..i]) {
      var r := ByName(s[..i])[s[i].name];
      var k :| 0 <= k < i && s[..i][k] == r;
      assert s[k].name == s[i].name;
    }
  }

  lemma ByNameAppend(s: seq<Rule>, r: Rule)
    ensures ByName(s + [r]) == ByName(s)[r.name := r]
  {
    assert (s + [r])[..|s|] == s;
  }

  lemma {:induction false} FilterUnique(p: Rule -> bool, s: seq<Rule>)
    requires UniqueNames(s)
    ensures UniqueNames(Filter(p, s))
  {
    if s != [] {
      var rest, r := s[..|s| - 1], s[|s| - 1];
      FilterUnique(p, rest);
      forall x | x in Filter(p, rest) ensures x.name != r.name {
        var k :| 0 <= k < |rest| && rest[k] == x;
        assert s[k] == x;
      }
    }
  }

  /** The static rules started so far, and one that is not among them. */
  lemma StartOne(c: Config, i: nat)
    requires UniqueNames(c) && i < |c|
    ensures c[i].name !in ByName(Filter(IsStatic(), c[..i]))
    ensures ByName(Filter(IsStatic(), c[..i + 1])) ==
            if Static(c[i]) then ByName(Filter(IsStatic(), c[..i]))[c[i].name := c[i]] else ByName(Filter(IsStatic(), c[..i]))
  {
    hide ByName, Filter;
    var started := Filter(IsStatic(), c[..i]);
    FilterSnoc(IsStatic(), c, i);
    ByNameAppend(started, c[i]);
    assert started + [] == started;
    forall r | r in c[..i] ensures r.name != c[i].name {
      var k :| 0 <= k < i && c[..i][k] == r;
      assert c[k] == r;
    }
  }

  lemma StartedAgree(c: Config)
    requires UniqueNames(c)
    ensures Agrees(ByName(Filter(IsStatic(), c)), c) && Covers(ByName(Filter(IsStatic(), c)), c)
  {
    hide ByName, Filter, Alike;
    var started := ByName(Filter(IsStatic(), c));
    forall n | n in started ensures n in ByName(c) && started[n].name == n && Alike(started[n], ByName(c)[n]) {
      ByNameFinds(c, started[n]);
      AgreementIsEquivalence(started[n], started[n], started[n]);
    }
  }

  /** Added rules are not running, changed ones are listed once. */
  lemma BucketsStartable(active: map<string, Rule>, d: Diff, prev: Config, next: Config)
    requires UniqueNames(prev) && UniqueNames(next) && IsDiff(d, prev, next) && Agrees(active, prev)
    ensures UniqueNames(d.added) && UniqueNames(d.changed)
    ensures forall r :: r in d.added ==> r.name !in active
  {
    hide Projection, Alike, ByName, UniqueNames, Filter;
    FilterUnique(IsAdded(ByName(prev)), next);
    FilterUnique(IsChanged(ByName(prev)), next);
    forall r | r in d.added ensures r.name !in active { assert IsAdded(ByName(prev))(r); }
  }

  lemma NothingToDo(active: map<string, Rule>, d: Diff)
    requires d.added == [] && d.removed == [] && d.changed == []
    ensures AfterReload(active, d) == active
  {
    assert NameSet(d.removed) == {};
  }

  /** The guard skips the handler only when the firewall has nothing to reconcile. */
  lemma GuardLetsPass(d: Diff, prev: Config, next: Config)
    requires UniqueNames(prev) && UniqueNames(next) && IsDiff(d, prev, next)
    requires d.added == [] && d.removed == [] && d.changed == []
    ensures Projection(prev) == Projection(next)
  {
    hide Projection, Alike, ByName, UniqueNames, Filter;
    assert |d.removed| == |Filter(IsRemoved(ByName(next)), prev)|;
    if Projection(prev) != Projection(next) { InterceptChangeShows(prev, next); }
  }

  // ── Listeners and their flags ──

  /** The shutdown flag of each rule name, every thread started, by its flag, and the flags set. */
  datatype Board = Board(flags: map<string, nat>, threads: map<nat, Rule>, stopped: set<nat>, nextFlag: nat)

  /** Every thread that still runs is reachable through its rule's flag. */
  ghost predicate Wired(b: Board) {
    && (forall n :: n in b.flags ==> b.flags[n] in b.threads && b.threads[b.flags[n]].name == n)
    && (forall id :: id in b.threads ==> id < b.nextFlag)
    && (forall id :: id in b.threads && id !in b.stopped ==>
          b.threads[id].name in b.flags && b.flags[b.threads[id].name] == id)
    && (forall id :: id in b.stopped ==> id < b.nextFlag)
  }

  /** The rules whose flag is registered and not set. */
  ghost function Active(b: Board): map<string, Rule>
    requires Wired(b)
  {
    map n | n in b.flags && b.flags[n] !in b.stopped :: b.threads[b.flags[n]]
  }

  function Stop(b: Board, name: string): Board {
    if name in b.flags then b.(stopped := b.stopped + {b.flags[name]}) else b
  }

  function Start(b: Board, r: Rule): Board {
    Board(b.flags[r.name := b.nextFlag], b.threads[b.nextFlag := r], b.stopped, b.nextFlag + 1)
  }

  lemma StopStops(b: Board, name: string)
    requires Wired(b)
    ensures Wired(Stop(b, name)) && Active(Stop(b, name)) == Active(b) - {name}
    ensures Untouched(b, Stop(b, name), {name})
  {
  }

  lemma StartWires(b: Board, r: Rule)
    requires Wired(b) && r.name !in Active(b)
    ensures Wired(Start(b, r))
  {
    var b' := Start(b, r);
    forall id | id in b'.threads && id !in b'.stopped
      ensures b'.threads[id].name in b'.flags && b'.flags[b'.threads[id].name] == id
    {
      if id != b.nextFlag { assert b.threads[id].name in Active(b); }
    }
  }

  lemma StartStarts(b: Board, r: Rule)
    requires Wired(b) && r.name !in Active(b)
    ensures Wired(Start(b, r)) && Active(Start(b, r)) == Active(b)[r.name := r]
    ensures Untouched(b, Start(b, r), {r.name})
  {
    StartWires(b, r);
  }

  /** Rules outside `touched` keep their thread: the same flag, set or not as before. */
  ghost predicate Untouched(b: Board, b': Board, touched: set<string>) {
    forall n :: n in b.flags && n !in touched ==> KeepsThread(b, b', n)
  }

  /** The rule's thread, if it has one, is the same and runs or not as before. */
  ghost predicate KeepsThread(b: Board, b': Board, n: string) {
    n in b.flags ==>
      n in b'.flags && b'.flags[n] == b.flags[n] && (b.flags[n] in b'.stopped <==> b.flags[n] in b.stopped)
  }

  lemma UntouchedThen(a: Board, b: Board, c: Board, s: set<string>, t: set<string>)
    requires Untouched(a, b, s) && Untouched(b, c, t)
    ensures Untouched(a, c, s + t)
  {
  }

  function RuleNames(rs: seq<Rule>): set<string> { set r | r in rs :: r.name }

  /** No thread runs besides the active rules. */
  lemma NoOtherRuns(b: Board, id: nat)
    requires Wired(b) && id in b.threads && id !in b.stopped
    ensures b.threads[id].name in Active(b) && Active(b)[b.threads[id].name] == b.threads[id]
  {
  }

  ghost function Touched(d: Diff): set<string> { NameSet(d.removed) + RuleNames(d.added) + RuleNames(d.changed) }

  // ── The gateway ──

  class Gateway {
    var config: Config
    var board: Board
    var installed: seq<Intercepted>      // the firewall's interception rules
    var firewallFailed: bool

    /** The configurations so far, from startup to the current one. */
    ghost var history: seq<Config>

    ghost predicate Valid()
      reads this
    {
      && Wired(board) && UniqueNames(config)
      && Agrees(Active(board), config) && Covers(Active(board), config)
      && history != [] && history[|history| - 1] == config
      && StartedNames(Active(board), history)
      && (!firewallFailed ==> installed == Projection(config))
    }

    /** Startup: static rules are started, templates are not. */
    constructor (config: Config, setupOk: bool)
      requires UniqueNames(config)
      ensures Valid() && this.config == config && Active(board) == ByName(Filter(IsStatic(), config))
      ensures history == [config]
    {
      hide Projection, Alike, ByName, UniqueNames, Filter, Wired, Active, Agrees, Covers, StartedNames;
      this.config, history := config, [config];
      board := Board(map[], map[], {}, 0);
      installed, firewallFailed := if setupOk then Projection(config) else [], !setupOk;
      new;
      EmptyBoard(config);
      StartRules();
      StartedAgree(config);
      StartupNames(config);
    }

    /** Start the static rules; template rules are left to the interface manager. */
    method StartRules()
      requires UniqueNames(config) && Wired(board) && Active(board) == map[]
      modifies this`board
      ensures Wired(board) && Active(board) == ByName(Filter(IsStatic(), config))
    {
      hide ByName, UniqueNames, Filter, Wired, Active;
      EmptyBoard(config);
      for i := 0 to |config|
        invariant Wired(board) && Active(board) == ByName(Filter(IsStatic(), config[..i]))
      {
        StartOne(config, i);
        if Static(config[i]) { StartSingleRule(config[i]); }
      }
      assert config[..|config|] == config;
    }

    /** Set the flag of a rule, if it has one; the entry stays. */
    method StopRule(name: string)
      requires Wired(board)
      modifies this`board
      ensures Wired(board) && Active(board) == Active(old(board)) - {name} && Untouched(old(board), board, {name})
    {
      hide Wired, Active, Untouched;
      StopStops(board, name);
      if name in board.flags { board := board.(stopped := board.stopped + {board.flags[name]}); }
    }

    /** Start a rule's thread under a fresh flag registered by its name. Whether it comes to listen is
        for its provider to say. */
    method StartSingleRule(rule: Rule)
      requires Wired(board) && rule.name !in Active(board)
      modifies this`board
      ensures Wired(board) && Active(board) == Active(old(board))[rule.name := rule]
      ensures Untouched(old(board), board, {rule.name})
    {
      hide Wired, Active, Untouched;
      StartStarts(board, rule);
      board := Start(board, rule);
    }

    method StopAll(names: seq<string>)
      requires Wired(board)
      modifies this`board
      ensures Wired(board) && Active(board) == Active(old(board)) - NameSet(names)
      ensures Untouched(old(board), board, NameSet(names))
    {
      ghost var was, b0 := Active(board), board;
      assert Untouched(b0, board, {});
      assert NameSet(names[..0]) == {};
      assert was - {} == was;
      hide Wired, Active, Untouched, NameSet;
      for i := 0 to |names|
        invariant Wired(board) && Active(board) == was - NameSet(names[..i])
        invariant Untouched(b0, board, NameSet(names[..i]))
      {
        ghost var b := board;
        StopRule(names[i]);
        UntouchedThen(b0, b, board, NameSet(names[..i]), {names[i]});
        OneMoreName(names, i);
        MinusMore(was, NameSet(names[..i]), names[i]);
      }
      assert names[..|names|] == names;
    }

    method StartAll(rules: seq<Rule>)
      requires Wired(board) && UniqueNames(rules) && forall r :: r in rules ==> r.name !in Active(board)
      modifies this`board
      ensures Wired(board) && Active(board) == Active(old(board)) + ByName(rules)
      ensures Untouched(old(board), board, RuleNames(rules))
    {
      ghost var was, b0 := Active(board), board;
      assert Untouched(b0, board, {});
      hide Wired, Active, ByName, UniqueNames, Untouched;
      StartNone(was, rules);
      for i := 0 to |rules|
        invariant Wired(board) && Active(board) == was + ByName(rules[..i])
        invariant Untouched(b0, board, RuleNames(rules[..i]))
      {
        ghost var b := board;
        assert RuleNames(rules[..i + 1]) == RuleNames(rules[..i]) + {rules[i].name};
        ByNameSnoc(rules, i);
        MergeOne(was, ByName(rules[..i]), rules[i]);
        StartSingleRule(rules[i]);
        UntouchedThen(b0, b, board, RuleNames(rules[..i]), {rules[i].name});
      }
      assert rules[..|rules|] == rules;
    }

    method RestartAll(rules: seq<Rule>)
      requires Wired(board)
      modifies this`board
      ensures Wired(board) && Active(board) == Active(old(board)) + ByName(rules)
      ensures Untouched(old(board), board, RuleNames(rules))
    {
      ghost var was, b0 := Active(board), board;
      assert Untouched(b0, board, {});
      hide Wired, Active, ByName, UniqueNames, Untouched;
      StartNone(was, rules);
      for i := 0 to |rules|
        invariant Wired(board) && Active(board) == was + ByName(rules[..i])
        invariant Untouched(b0, board, RuleNames(rules[..i]))
      {
        ghost var b := board;
        assert RuleNames(rules[..i + 1]) == RuleNames(rules[..i]) + {rules[i].name};
        ByNameSnoc(rules, i);
        MergeOne(was, ByName(rules[..i]), rules[i]);
        StopRule(rules[i].name);
        ghost var b' := board;
        StartSingleRule(rules[i]);
        UntouchedThen(b, b', board, {rules[i].name}, {rules[i].name});
        assert {rules[i].name} + {rules[i].name} == {rules[i].name};
        UntouchedThen(b0, b, board, RuleNames(rules[..i]), {rules[i].name});
      }
      assert rules[..|rules|] == rules;
    }

    /** The reload handler: threads first, then the firewall. */
    method OnReload(d: Diff, setupOk: bool)
      requires Wired(board) && UniqueNames(d.added) && forall r :: r in d.added ==> r.name !in Active(board)
      modifies this
      ensures Wired(board) && Active(board) == AfterReload(Active(old(board)), d)
      ensures config == old(config) && history == old(history)
      ensures Untouched(old(board), board, Touched(d))
      ensures d.interceptChanged ==>
        && installed == (if setupOk then Projection(config) else [])
        && firewallFailed == (!setupOk && Projection(config) != [])
      ensures !d.interceptChanged ==> installed == old(installed) && firewallFailed == old(firewallFailed)
    {
      hide Projection, Alike, ByName, UniqueNames, Wired, Active, Untouched;
      ghost var b0 := board;
      StopAll(d.removed);
      ghost var b1 := board;
      StartAll(d.added);
      ghost var b2 := board;
      RestartAll(d.changed);
      UntouchedThen(b0, b1, b2, NameSet(d.removed), RuleNames(d.added));
      UntouchedThen(b0, b2, board, NameSet(d.removed) + RuleNames(d.added), RuleNames(d.changed));
      if d.interceptChanged {
        installed, firewallFailed := [], false;
        if Projection(config) != [] {
          if setupOk { installed := Projection(config); } else { firewallFailed := true; }
        }
      }
    }

    /** One watcher round: a configuration that fails to load keeps the current one; otherwise swap
        it in, and run the handler if any bucket is non-empty. */
    method Reload(loaded: Option<Config>, setupOk: bool)
      requires Valid() && (loaded.Some? ==> UniqueNames(loaded.value))
      modifies this
      ensures Valid() && config == if loaded.Some? then loaded.value else old(config)
      ensures history == if loaded.Some? then old(history) + [loaded.value] else old(history)
      ensures loaded.None? ==> board == old(board)
      ensures forall r, q :: q in old(config) && r in config && q.name == r.name && Alike(q, r) ==>
                KeepsThread(old(board), board, r.name)
    {
      hide Projection, Alike, ByName, UniqueNames, Filter, Agrees, Covers, Wired, Active, Touched, StartedNames;
      if loaded.None? { return; }
      var was := config;
      var d := Compare(config, loaded.value);
      config := loaded.value;
      ReloadAgrees(Active(board), d, was, config);
      ReloadCovers(Active(board), d, was, config);
      ReloadNames(Active(board), d, history, config);
      history := history + [config];
      if d.added != [] || d.removed != [] || d.changed != [] {
        BucketsStartable(Active(board), d, was, config);
        OnReload(d, setupOk);
        forall r, q | q in was && r in config && q.name == r.name && Alike(q, r) ensures r.name !in Touched(d) {
          AgreeingUntouched(d, was, config, q, r);
        }
      } else {
        NothingToDo(Active(board), d);
        GuardLetsPass(d, was, config);
      }
    }
  }

  lemma StartNone(active: map<string, Rule>, rules: seq<Rule>)
    ensures active + ByName(rules[..0]) == active
  {
  }

  lemma MergeOne(active: map<string, Rule>, m: map<string, Rule>, r: Rule)
    ensures (active + m)[r.name := r] == active + m[r.name := r]
    ensures ((active + m) - {r.name})[r.name := r] == active + m[r.name := r]
  {
  }

  /** A rule that agrees with its old self is in no bucket that is acted on. */
  lemma AgreeingUntouched(d: Diff, prev: Config, next: Config, q: Rule, r: Rule)
    requires UniqueNames(prev) && UniqueNames(next) && IsDiff(d, prev, next)
    requires q in prev && r in next && q.name == r.name && Alike(q, r)
    ensures r.name !in Touched(d)
  {
    hide Projection, Alike, IsDiff, UniqueNames;
    ByNameFinds(prev, q);
    RemovedNames(d, prev, next, r.name);
    forall x | x in d.added || x in d.changed ensures x.name != r.name {
      FromNew(d, prev, next, x);
      BucketOf(d, prev, next, x);
      ByNameFinds(next, x);
      ByNameFinds(next, r);
    }
  }

  lemma EmptyBoard(c: Config)
    ensures var b := Board(map[], map[], {}, 0); Wired(b) && Active(b) == map[]
    ensures ByName(Filter(IsStatic(), c[..0])) == map[]
  {
    assert c[..0] == [];
  }

  // ── Which rules listen ──

  /** What a rule thread meets: providers beyond the built-in ones, and addresses that can be bound. */
  datatype Env = Env(extra: (string, Direction, Proto) -> bool, binds: string -> bool)

  /** `resolve_crypto_provider`: an offloadable `tls` rule may run as `ktls`, and the reverse. */
  function ResolvedProvider(configured: string, offloadable: bool, preferKtls: bool, kernelKtls: bool): string {
    if configured == "ktls" && !offloadable then "tls"
    else if configured == "tls" && preferKtls && offloadable && kernelKtls then "ktls"
    else configured
  }

  /** Whether a provider goes on to bind the rule's address, or returns an error at once. */
  predicate Accepts(env: Env, provider: string, dir: Direction, proto: Proto) {
    if provider == "tls" || provider == "ktls" then dir.Decrypt? || proto.Tcp? || proto.Udp?
    else if provider == "routing" then proto.Tcp? || proto.Udp?
    else if provider == "dtls" || provider == "wireguard" then proto.Udp?
    else env.extra(provider, dir, proto)
  }

  /** A thread of this rule comes to listen. */
  predicate Serves(env: Env, r: Rule) {
    Accepts(env, EffectiveSecurity(r), r.dir, r.listenProto) && env.binds(r.listenAddr)
  }

  /** kTLS is run exactly for parameters it can offload, when asked for or when a `tls` rule prefers it on
      a kernel that has it; no rule of another provider is touched. */
  lemma ResolvedExactly(configured: string, offloadable: bool, preferKtls: bool, kernelKtls: bool)
    ensures var r := ResolvedProvider(configured, offloadable, preferKtls, kernelKtls);
      && (r == "ktls" <==> offloadable && (configured == "ktls" || (configured == "tls" && preferKtls && kernelKtls)))
      && (r == "tls" <==> configured in {"tls", "ktls"} && r != "ktls")
      && (configured !in {"tls", "ktls"} ==> r == configured)
  {
    assert "tls"[0] == 't' && "ktls"[0] == 'k';
  }

  /** The kTLS preference does not decide whether a rule listens. */
  lemma ResolutionIrrelevant(env: Env, r: Rule, offloadable: bool, preferKtls: bool, kernelKtls: bool)
    ensures Accepts(env, ResolvedProvider(EffectiveSecurity(r), offloadable, preferKtls, kernelKtls), r.dir, r.listenProto)
         == Accepts(env, EffectiveSecurity(r), r.dir, r.listenProto)
  {
  }

  const BUILT_IN: set<string> := {"tls", "ktls", "routing", "dtls", "wireguard"}

  /** The modes a built-in provider declares in `supported_modes`. */
  function SupportedModes(provider: string): set<(Direction, Proto)>
    requires provider in BUILT_IN
  {
    if provider == "dtls" || provider == "wireguard" then {(Encrypt, Udp), (Decrypt, Udp)}
    else {(Encrypt, Tcp), (Encrypt, Udp), (Decrypt, Tcp), (Decrypt, Udp)}
  }

  /** Every declared mode is accepted; beyond them only decryption under TLS or kTLS goes on, whatever
      the protocol. */
  lemma AcceptsDeclaredExactly(env: Env, provider: string, dir: Direction, proto: Proto)
    requires provider in BUILT_IN
    ensures Accepts(env, provider, dir, proto) <==>
      || (dir, proto) in SupportedModes(provider)
      || (dir.Decrypt? && provider in {"tls", "ktls"})
  {
  }

  /** Among the built-in providers, the only template rules whose thread comes to listen are those that
      decrypt under TLS or kTLS. */
  lemma TemplateServesExactly(env: Env, r: Rule)
    requires (r.listenProto.Uds? || r.listenProto.Shm?) && r.securityProvider in BUILT_IN
    ensures Serves(env, r) <==>
      && r.dir.Decrypt? && env.binds(r.listenAddr)
      && (r.securityProvider == "ktls" || (r.securityProvider == "tls" && !r.tlsMode.TlsModeDtls?))
  {
    assert "tls"[0] == 't' && "ktls"[0] == 'k' && "dtls"[0] == 'd' && "routing"[0] == 'r' && "wireguard"[0] == 'w';
  }

  /** Rules that agree on what a reload re-applies listen alike. */
  lemma AgreeingServeAlike(env: Env, q: Rule, r: Rule)
    requires Alike(q, r)
    ensures Serves(env, q) == Serves(env, r) && Static(q) == Static(r)
  {
    DiffersExactly(q, r);
  }

  /** A rule of the startup configuration that no reload has removed or changed since. */
  ghost predicate SinceStartup(history: seq<Config>, n: string)
    requires history != []
  {
    forall i :: 0 <= i < |history| ==>
      n in ByName(history[0]) && n in ByName(history[i]) && Alike(ByName(history[0])[n], ByName(history[i])[n])
  }

  /** A rule has been started: it is in the current configuration, and either it is static or some
      reload has added or changed it. */
  ghost predicate Started(history: seq<Config>, n: string)
    requires history != []
  {
    var c := ByName(history[|history| - 1]);
    n in c && (Static(c[n]) || !SinceStartup(history, n))
  }

  ghost predicate StartedNames(active: map<string, Rule>, history: seq<Config>)
    requires history != []
  {
    forall n :: n in active <==> Started(history, n)
  }

  lemma StartupNames(c: Config)
    requires UniqueNames(c)
    ensures StartedNames(ByName(Filter(IsStatic(), c)), [c])
  {
    hide ByName, Filter, Alike, UniqueNames;
    var active := ByName(Filter(IsStatic(), c));
    forall n ensures n in active <==> Started([c], n) {
      if n in ByName(c) {
        var r := ByName(c)[n];
        AgreementIsEquivalence(r, r, r);
        assert Static(r) ==> r in Filter(IsStatic(), c);
      }
      if n in active { ByNameFinds(c, active[n]); }
    }
  }

  /** Where a reload leaves a name: agreeing with the old configuration, started only if it was. */
  lemma ReloadName(active: map<string, Rule>, d: Diff, prev: Config, next: Config, n: string)
    requires UniqueNames(prev) && UniqueNames(next) && IsDiff(d, prev, next) && Agrees(active, prev)
    ensures n in AfterReload(active, d) <==>
      && n in ByName(next)
      && (n in ByName(prev) && Alike(ByName(prev)[n], ByName(next)[n]) ==> n in active)
  {
    hide Projection, Alike, IsDiff, UniqueNames, ByName;
    RemovedNames(d, prev, next, n);
    if n in ByName(next) {
      var r := ByName(next)[n];
      BucketOf(d, prev, next, r);
      BucketNames(d, prev, next, r);
    } else {
      NotInBuckets(d, prev, next, n);
    }
  }

  lemma BucketNames(d: Diff, prev: Config, next: Config, r: Rule)
    requires UniqueNames(next) && IsDiff(d, prev, next) && r in next
    ensures r.name in ByName(d.added) <==> r in d.added
    ensures r.name in ByName(d.changed) <==> r in d.changed
  {
    hide Projection, Alike, IsDiff, UniqueNames, ByName;
    ByNameFinds(next, r);
    if r.name in ByName(d.added) {
      var x := ByName(d.added)[r.name];
      FromNew(d, prev, next, x);
      ByNameFinds(next, x);
    }
    if r.name in ByName(d.changed) {
      var x := ByName(d.changed)[r.name];
      FromNew(d, prev, next, x);
      ByNameFinds(next, x);
    }
  }

  lemma NotInBuckets(d: Diff, prev: Config, next: Config, n: string)
    requires IsDiff(d, prev, next) && n !in ByName(next)
    ensures n !in ByName(d.added) && n !in ByName(d.changed)
  {
    hide Projection, Alike, ByName;
    assert forall x :: x in d.added || x in d.changed ==> x in next;
  }

  /** One more configuration: a name stays unstarted only if it stays as it was since startup. */
  lemma StartedNext(history: seq<Config>, next: Config, n: string)
    requires history != [] && UniqueNames(history[|history| - 1]) && UniqueNames(next)
    ensures var prev := ByName(history[|history| - 1]);
      Started(history + [next], n) <==>
        && n in ByName(next)
        && (n in prev && Alike(prev[n], ByName(next)[n]) ==> Started(history, n))
  {
    hide Alike, ByName, UniqueNames;
    var h' := history + [next];
    var prev, c, first := ByName(history[|history| - 1]), ByName(next), ByName(history[0]);
    assert h'[0] == history[0] && h'[|history|] == next;
    if n in c {
      if SinceStartup(h', n) {
        assert h'[|history| - 1] == history[|history| - 1];
        assert SinceStartup(history, n) by { forall i | 0 <= i < |history| ensures h'[i] == history[i] {} }
        AgreementIsEquivalence(prev[n], first[n], c[n]);
        AgreementIsEquivalence(first[n], prev[n], c[n]);
        AgreementStatic(prev[n], c[n]);
      } else if n in prev && Alike(prev[n], c[n]) {
        AgreementStatic(prev[n], c[n]);
        if SinceStartup(history, n) {
          AgreementIsEquivalence(first[n], prev[n], c[n]);
          StillSinceStartup(history, next, n);
        }
      }
    }
  }

  lemma AgreementStatic(q: Rule, r: Rule)
    requires Alike(q, r)
    ensures Static(q) == Static(r)
  {
  }

  lemma StillSinceStartup(history: seq<Config>, next: Config, n: string)
    requires history != [] && SinceStartup(history, n) && n in ByName(next)
    requires Alike(ByName(history[0])[n], ByName(next)[n])
    ensures SinceStartup(history + [next], n)
  {
    hide Alike, ByName;
    var h' := history + [next];
    forall i | 0 <= i < |h'|
      ensures n in ByName(h'[i]) && Alike(ByName(h'[0])[n], ByName(h'[i])[n])
    {
      if i < |history| { assert h'[i] == history[i]; }
    }
  }

  lemma ReloadNames(active: map<string, Rule>, d: Diff, history: seq<Config>, next: Config)
    requires history != [] && UniqueNames(history[|history| - 1]) && UniqueNames(next)
    requires IsDiff(d, history[|history| - 1], next)
    requires Agrees(active, history[|history| - 1]) && StartedNames(active, history)
    ensures StartedNames(AfterReload(active, d), history + [next])
  {
    hide Projection, Alike, IsDiff, UniqueNames, ByName, Started, AfterReload, Agrees;
    forall n ensures n in AfterReload(active, d) <==> Started(history + [next], n) {
      ReloadName(active, d, history[|history| - 1], next, n);
      StartedNext(history, next, n);
    }
  }

  /** Over every run of reloads, exactly these names listen: rules of the current configuration that
      their provider accepts and whose address binds, provided they are static or some reload has
      added or changed them since startup. */
  lemma ListensExactly(g: Gateway, env: Env, n: string)
    requires g.Valid()
    ensures (n in Active(g.board) && Serves(env, Active(g.board)[n])) <==>
      && n in ByName(g.config) && Serves(env, ByName(g.config)[n])
      && (Static(ByName(g.config)[n]) || !SinceStartup(g.history, n))
  {
    hide Alike, ByName, UniqueNames, Wired, Active, Projection, Covers, SinceStartup, Serves;
    if n in Active(g.board) { AgreeingServeAlike(env, Active(g.board)[n], ByName(g.config)[n]); }
  }

  /** After any run of reloads a started rule runs with the settings of the current configuration. */
  lemma RunsAsConfigured(g: Gateway, n: string)
    requires g.Valid() && n in Active(g.board)
    ensures n in ByName(g.config)
    ensures var r, c := Active(g.board)[n], ByName(g.config)[n];
      && r.name == c.name && r.dir == c.dir
      && r.listenAddr == c.listenAddr && r.listenProto == c.listenProto
      && r.upstreamAddr == c.upstreamAddr && r.upstreamProto == c.upstreamProto
      && EffectiveSecurity(r) == EffectiveSecurity(c) && r.providerParams == c.providerParams
      && EffectiveApp(r) == EffectiveApp(c) && r.protocolVersion == c.protocolVersion
      && r.transparent == c.transparent && r.intercept == c.intercept
      && r.cls == c.cls && r.dscpTag == c.dscpTag && r.preserveInboundDscp == c.preserveInboundDscp
      && r.allowedUids == c.allowedUids && r.allowedPids == c.allowedPids
  {
    hide ByName, UniqueNames, Wired, Active, Projection, Covers, EffectiveSecurity, EffectiveApp, Alike;
    DiffersExactly(Active(g.board)[n], ByName(g.config)[n]);
  }

  /** One configuration, two histories: a rule there at startup is started exactly if it listens on TCP
      or UDP, a rule added by a reload always. */
  lemma HistoryDecides(r: Rule)
    ensures Started([[r]], r.name) <==> r.listenProto.Tcp? || r.listenProto.Udp?
    ensures Started([[], [r]], r.name)
  {
    hide Alike;
    AgreementIsEquivalence(r, r, r);
    assert [r][..0] == [];
    assert ByName([r]) == map[r.name := r];
    assert [[], [r]][1] == [r] && [[], [r]][0] == [];
  }
}
