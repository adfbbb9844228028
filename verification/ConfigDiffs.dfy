/** Configuration diffs: rules matched by name into added, removed, changed and unchanged buckets,
    and the firewall interception posture of a configuration. */
module ConfigDiffs {
  import opened Words
  import opened OwnerKeys
  import opened Options

  datatype TlsMode = TlsModeTls | TlsModeKtls | TlsModeDtls

  /** Fields that decide a rule's listener; `tuning` stands for the performance knobs. */
  datatype Rule = Rule(
    name: string,
    dir: Direction,
    listenAddr: string,
    listenProto: Proto,
    upstreamAddr: string,
    upstreamProto: Proto,
    securityProvider: string,
    tlsMode: TlsMode,
    appProtocol: Option<string>,
    protocolVersion: Option<string>,
    transparent: bool,
    cls: TrafficClass,
    dscpTag: Option<nat>,
    preserveInboundDscp: bool,
    providerParams: string,
    allowedUids: seq<u32>,
    allowedPids: seq<int>,
    intercept: Option<string>,
    tuning: string)

  type Config = seq<Rule>

  function EffectiveSecurity(r: Rule): string {
    if r.securityProvider != "tls" then r.securityProvider
    else match r.tlsMode case TlsModeTls => "tls" case TlsModeKtls => "ktls" case TlsModeDtls => "dtls"
  }

  function EffectiveApp(r: Rule): string { match r.appProtocol case Some(p) => p case None => "ale" }

  predicate ReloadDiffers(a: Rule, b: Rule) {
    || a.dir != b.dir
    || a.listenAddr != b.listenAddr
    || a.listenProto != b.listenProto
    || a.upstreamAddr != b.upstreamAddr
    || a.upstreamProto != b.upstreamProto
    || EffectiveSecurity(a) != EffectiveSecurity(b)
    || EffectiveApp(a) != EffectiveApp(b)
    || a.protocolVersion != b.protocolVersion
    || a.transparent != b.transparent
    || a.cls != b.cls
    || a.dscpTag != b.dscpTag
    || a.preserveInboundDscp != b.preserveInboundDscp
    || a.providerParams != b.providerParams
    || a.allowedUids != b.allowedUids
    || a.allowedPids != b.allowedPids
    || a.intercept != b.intercept
  }

  // ── What a reload re-applies ──

  /** A rule without its name, its tuning knobs, and the fields that have more than one spelling. */
  function Erased(r: Rule): Rule {
    r.(name := "", tuning := "", securityProvider := "", tlsMode := TlsModeTls, appProtocol := None)
  }

  /** `tls` with a mode other than TLS is another way to write the provider of that name. */
  predicate Respells(a: Rule, b: Rule) {
    a.securityProvider == "tls" &&
      ((a.tlsMode.TlsModeKtls? && b.securityProvider == "ktls") || (a.tlsMode.TlsModeDtls? && b.securityProvider == "dtls"))
  }

  predicate SameSecurity(a: Rule, b: Rule) {
    || (a.securityProvider == b.securityProvider && (a.securityProvider == "tls" ==> a.tlsMode == b.tlsMode))
    || Respells(a, b) || Respells(b, a)
  }

  /** ALE is the protocol of a rule that names none. */
  predicate SameApp(a: Rule, b: Rule) {
    || a.appProtocol == b.appProtocol
    || (a.appProtocol == None && b.appProtocol == Some("ale"))
    || (a.appProtocol == Some("ale") && b.appProtocol == None)
  }

  /** Two rules agree on everything a reload re-applies: they are the same rule, up to name, tuning and
      spelling. */
  predicate Alike(a: Rule, b: Rule) { Erased(a) == Erased(b) && SameSecurity(a, b) && SameApp(a, b) }

  lemma SameSecurityIs(a: Rule, b: Rule)
    ensures SameSecurity(a, b) <==> EffectiveSecurity(a) == EffectiveSecurity(b)
  {
    assert "tls"[0] == 't' && "ktls"[0] == 'k' && "dtls"[0] == 'd';
  }

  /** The field-by-field comparison finds a difference exactly between rules that are not alike. */
  lemma DiffersExactly(a: Rule, b: Rule)
    ensures ReloadDiffers(a, b) <==> !Alike(a, b)
  {
    SameSecurityIs(a, b);
    hide EffectiveSecurity, SameSecurity;
  }

  /** Agreement is an equivalence, blind to the tuning knobs. */
  lemma AgreementIsEquivalence(a: Rule, b: Rule, c: Rule)
    ensures Alike(a, a)
    ensures Alike(a, b) == Alike(b, a)
    ensures Alike(a, b) && Alike(b, c) ==> Alike(a, c)
    ensures Alike(a, b) ==>
              a.intercept == b.intercept && a.listenAddr == b.listenAddr && a.listenProto == b.listenProto
    ensures Alike(a, a.(tuning := b.tuning))
  {
    DiffersExactly(a, a);
    DiffersExactly(a, b);
    DiffersExactly(b, a);
    DiffersExactly(b, c);
    DiffersExactly(a, c);
    DiffersExactly(a, a.(tuning := b.tuning));
    hide Alike;
  }

  // ── Names ──

  ghost predicate UniqueNames(c: Config) { forall i, j :: 0 <= i < j < |c| ==> c[i].name != c[j].name }

  /** The map from names to rules that `diff` builds; a later rule wins. */
  function ByName(c: Config): (m: map<string, Rule>)
    ensures forall n :: n in m ==> m[n] in c && m[n].name == n
    ensures forall r :: r in c ==> r.name in m
  {
    if c == [] then map[] else ByName(c[..|c| - 1])[c[|c| - 1].name := c[|c| - 1]]
  }

  lemma {:induction false} ByNameFinds(c: Config, r: Rule)
    requires UniqueNames(c) && r in c
    ensures ByName(c)[r.name] == r
  {
    var got := ByName(c)[r.name];
    var i :| 0 <= i < |c| && c[i] == r;
    var j :| 0 <= j < |c| && c[j] == got;
    assert i == j;
  }

  // ── The diff ──

  function Filter(p: Rule -> bool, s: seq<Rule>): (r: seq<Rule>)
    ensures forall x :: x in r <==> x in s && p(x)
  {
    if s == [] then [] else Filter(p, s[..|s| - 1]) + if p(s[|s| - 1]) then [s[|s| - 1]] else []
  }

  lemma FilterSnoc(p: Rule -> bool, s: seq<Rule>, i: nat)
    requires i < |s|
    ensures Filter(p, s[..i + 1]) == Filter(p, s[..i]) + if p(s[i]) then [s[i]] else []
  {
    assert s[..i + 1][..i] == s[..i];
  }

  function Names(c: Config): (ns: seq<string>)
    ensures |ns| == |c|
  {
    seq(|c|, i requires 0 <= i < |c| => c[i].name)
  }

  function IsAdded(olds: map<string, Rule>): Rule -> bool { (r: Rule) => r.name !in olds }

  function IsChanged(olds: map<string, Rule>): Rule -> bool {
    (r: Rule) => r.name in olds && !Alike(olds[r.name], r)
  }

  function IsUnchanged(olds: map<string, Rule>): Rule -> bool {
    (r: Rule) => r.name in olds && Alike(olds[r.name], r)
  }

  function IsRemoved(news: map<string, Rule>): Rule -> bool { (r: Rule) => r.name !in news }

  datatype Diff = Diff(added: seq<Rule>, removed: seq<string>, changed: seq<Rule>, same: seq<string>, interceptChanged: bool)

  ghost predicate HasName(c: Config, n: string) { exists r :: r in c && r.name == n }

  ghost predicate HasAlike(c: Config, r: Rule) { exists q :: q in c && q.name == r.name && Alike(q, r) }

  /** Every rule of the new configuration is added, changed or unchanged according to the old rule of
      its name, and every old name without a new rule is removed. */
  ghost predicate Sorts(d: Diff, prev: Config, next: Config) {
    && (forall r :: r in d.added <==> r in next && !HasName(prev, r.name))
    && (forall r :: r in d.changed <==> r in next && HasName(prev, r.name) && !HasAlike(prev, r))
    && (forall n :: n in d.same <==> exists r :: r in next && r.name == n && HasAlike(prev, r))
    && (forall n :: n in d.removed <==> HasName(prev, n) && !HasName(next, n))
  }

  lemma NamesOf(rs: seq<Rule>, n: string)
    ensures n in Names(rs) <==> exists r :: r in rs && r.name == n
  {
    if n in Names(rs) { var i :| 0 <= i < |rs| && Names(rs)[i] == n; assert rs[i] in rs; }
    if r :| r in rs && r.name == n { var i :| 0 <= i < |rs| && rs[i] == r; assert Names(rs)[i] == n; }
  }

  lemma ByNameHas(c: Config, n: string)
    ensures n in ByName(c) <==> HasName(c, n)
  {
    hide ByName;
    if n in ByName(c) { assert ByName(c)[n] in c && ByName(c)[n].name == n; }
  }

  lemma ByNameAlike(c: Config, r: Rule)
    requires UniqueNames(c)
    ensures r.name in ByName(c) && Alike(ByName(c)[r.name], r) <==> HasAlike(c, r)
  {
    hide ByName, UniqueNames, Alike;
    if r.name in ByName(c) && Alike(ByName(c)[r.name], r) { assert ByName(c)[r.name] in c; }
    if q :| q in c && q.name == r.name && Alike(q, r) { ByNameFinds(c, q); }
  }

  /** What the three tests on a rule of the new configuration mean. */
  lemma TestsMean(prev: Config, next: Config, r: Rule)
    requires UniqueNames(prev)
    ensures IsAdded(ByName(prev))(r) <==> !HasName(prev, r.name)
    ensures IsChanged(ByName(prev))(r) <==> HasName(prev, r.name) && !HasAlike(prev, r)
    ensures IsUnchanged(ByName(prev))(r) <==> HasAlike(prev, r)
    ensures IsRemoved(ByName(next))(r) <==> !HasName(next, r.name)
  {
    hide ByName, UniqueNames, Alike, HasName, HasAlike;
    ByNameHas(prev, r.name);
    ByNameHas(next, r.name);
    ByNameAlike(prev, r);
  }

  lemma NamesSort(d: Diff, prev: Config, next: Config, n: string)
    requires UniqueNames(prev)
    requires d.same == Names(Filter(IsUnchanged(ByName(prev)), next)) && d.removed == Names(Filter(IsRemoved(ByName(next)), prev))
    ensures n in d.same <==> exists r :: r in next && r.name == n && HasAlike(prev, r)
    ensures n in d.removed <==> HasName(prev, n) && !HasName(next, n)
  {
    hide ByName, UniqueNames, Names, HasAlike, IsUnchanged, IsRemoved;
    NamesOf(Filter(IsUnchanged(ByName(prev)), next), n);
    NamesOf(Filter(IsRemoved(ByName(next)), prev), n);
    forall r ensures IsUnchanged(ByName(prev))(r) <==> HasAlike(prev, r) { TestsMean(prev, next, r); }
    forall r ensures IsRemoved(ByName(next))(r) <==> !HasName(next, r.name) { TestsMean(prev, next, r); }
  }

  lemma BucketsSort(d: Diff, prev: Config, next: Config)
    requires UniqueNames(prev)
    requires var olds, news := ByName(prev), ByName(next);
      && d.added == Filter(IsAdded(olds), next) && d.changed == Filter(IsChanged(olds), next)
      && d.same == Names(Filter(IsUnchanged(olds), next)) && d.removed == Names(Filter(IsRemoved(news), prev))
    ensures Sorts(d, prev, next)
  {
    hide ByName, UniqueNames, Names, HasName, HasAlike, IsAdded, IsChanged, IsUnchanged, IsRemoved;
    forall r ensures r in d.added <==> r in next && !HasName(prev, r.name) { TestsMean(prev, next, r); }
    forall r ensures r in d.changed <==> r in next && HasName(prev, r.name) && !HasAlike(prev, r) { TestsMean(prev, next, r); }
    forall n ensures n in d.same <==> exists r :: r in next && r.name == n && HasAlike(prev, r) { NamesSort(d, prev, next, n); }
    forall n ensures n in d.removed <==> HasName(prev, n) && !HasName(next, n) { NamesSort(d, prev, next, n); }
  }

  /** The four buckets, each in configuration order, and the interception comparison. */
  method Compare(prev: Config, next: Config) returns (d: Diff)
    ensures var olds, news := ByName(prev), ByName(next);
      && d.added == Filter(IsAdded(olds), next)
      && d.changed == Filter(IsChanged(olds), next)
      && d.same == Names(Filter(IsUnchanged(olds), next))
      && d.removed == Names(Filter(IsRemoved(news), prev))
    ensures UniqueNames(prev) ==> Sorts(d, prev, next)
    ensures d.interceptChanged == (Projection(prev) != Projection(next))
  {
    hide Sorts, UniqueNames, ReloadDiffers, Alike, Projection, ByName;
    var olds, news := ByName(prev), ByName(next);
    var added: seq<Rule>, changed: seq<Rule>, same: seq<Rule> := [], [], [];
    for i := 0 to |next|
      invariant added == Filter(IsAdded(olds), next[..i])
      invariant changed == Filter(IsChanged(olds), next[..i])
      invariant same == Filter(IsUnchanged(olds), next[..i])
    {
      FilterSnoc(IsAdded(olds), next, i);
      FilterSnoc(IsChanged(olds), next, i);
      FilterSnoc(IsUnchanged(olds), next, i);
      var r := next[i];
      if r.name in olds { DiffersExactly(olds[r.name], r); }
      if r.name !in olds {
        added := added + [r];
      } else if ReloadDiffers(olds[r.name], r) {
        changed := changed + [r];
      } else {
        same := same + [r];
      }
    }
    var removed: seq<Rule> := [];
    for i := 0 to |prev|
      invariant removed == Filter(IsRemoved(news), prev[..i])
    {
      FilterSnoc(IsRemoved(news), prev, i);
      if prev[i].name !in news { removed := removed + [prev[i]]; }
    }
    assert next[..|next|] == next && prev[..|prev|] == prev;
    d := Diff(added, Names(removed), changed, Names(same), Projection(prev) != Projection(next));
    if UniqueNames(prev) { BucketsSort(d, prev, next); }
  }

  // ── Interception posture ──

  datatype Intercepted = Intercepted(name: string, listenAddr: string, listenProto: Proto, intercept: string)

  function Intercepts(c: Config): seq<Intercepted> {
    if c == [] then []
    else
      var r := c[|c| - 1];
      Intercepts(c[..|c| - 1]) +
        match r.intercept case None => [] case Some(ic) => [Intercepted(r.name, r.listenAddr, r.listenProto, ic)]
  }

  /** Lexicographic order of names. */
  predicate AtMost(a: string, b: string) {
    a == [] || (b != [] && (a[0] < b[0] || (a[0] == b[0] && AtMost(a[1..], b[1..]))))
  }

  lemma {:induction false} AtMostOrder(a: string, b: string)
    ensures AtMost(a, b) || AtMost(b, a)
    ensures AtMost(a, b) && AtMost(b, a) ==> a == b
  {
    if a != [] && b != [] && a[0] == b[0] {
      AtMostOrder(a[1..], b[1..]);
      assert a == [a[0]] + a[1..] && b == [b[0]] + b[1..];
    }
  }

  lemma {:induction false} AtMostTransitive(a: string, b: string, c: string)
    requires AtMost(a, b) && AtMost(b, c)
    ensures AtMost(a, c)
  {
    if a != [] && a[0] == b[0] == c[0] { AtMostTransitive(a[1..], b[1..], c[1..]); }
  }

  ghost predicate Sorted(s: seq<Intercepted>) { forall i, j :: 0 <= i < j < |s| ==> AtMost(s[i].name, s[j].name) }

  function InsertByName(x: Intercepted, s: seq<Intercepted>): (r: seq<Intercepted>)
    ensures multiset(r) == multiset(s) + multiset{x}
  {
    if s == [] then [x]
    else if AtMost(s[|s| - 1].name, x.name) then s + [x]
    else
      var r := InsertByName(x, s[..|s| - 1]) + [s[|s| - 1]];
      assert s == s[..|s| - 1] + [s[|s| - 1]];
      r
  }

  /** `sort_by` on the name. */
  function SortByName(s: seq<Intercepted>): (r: seq<Intercepted>)
    ensures multiset(r) == multiset(s)
  {
    if s == [] then []
    else
      assert s == s[..|s| - 1] + [s[|s| - 1]];
      InsertByName(s[|s| - 1], SortByName(s[..|s| - 1]))
  }

  function Projection(c: Config): seq<Intercepted> { SortByName(Intercepts(c)) }

  lemma {:induction false} InsertSorted(x: Intercepted, s: seq<Intercepted>)
    requires Sorted(s)
    ensures Sorted(InsertByName(x, s))
  {
    hide AtMost;
    if s != [] {
      var last := s[|s| - 1];
      AtMostOrder(last.name, x.name);
      if AtMost(last.name, x.name) {
        forall i | 0 <= i < |s| ensures AtMost(s[i].name, x.name) {
          if i < |s| - 1 { AtMostTransitive(s[i].name, last.name, x.name); }
        }
      } else {
        var r := InsertByName(x, s[..|s| - 1]);
        InsertSorted(x, s[..|s| - 1]);
        forall i | 0 <= i < |r| ensures AtMost(r[i].name, last.name) {
          assert r[i] in multiset(r);
          if r[i] != x { assert r[i] in multiset(s[..|s| - 1]); assert r[i] in s[..|s| - 1]; }
        }
      }
    }
  }

  lemma {:induction false} SortSorted(s: seq<Intercepted>)
    ensures Sorted(SortByName(s))
  {
    hide AtMost, InsertByName;
    if s != [] {
      SortSorted(s[..|s| - 1]);
      InsertSorted(s[|s| - 1], SortByName(s[..|s| - 1]));
    }
  }

  ghost predicate DistinctNames(s: seq<Intercepted>) {
    forall x, y :: x in s && y in s && x.name == y.name ==> x == y
  }

  lemma FirstsEqual(a: seq<Intercepted>, b: seq<Intercepted>)
    requires Sorted(a) && Sorted(b) && multiset(a) == multiset(b) && DistinctNames(a) && a != [] && b != []
    ensures a[0] == b[0]
  {
    hide AtMost;
    assert a[0] in multiset(b) && b[0] in multiset(a);
    assert a[0] in b && b[0] in a;
    AtMostOrder(a[0].name, b[0].name);
    AtMostSelf(a[0].name);
  }

  lemma RestsEqual(a: seq<Intercepted>, b: seq<Intercepted>)
    requires multiset(a) == multiset(b) && a != [] && b != [] && a[0] == b[0]
    ensures multiset(a[1..]) == multiset(b[1..])
  {
    assert a == [a[0]] + a[1..] && b == [b[0]] + b[1..];
    assert multiset(a[1..]) == multiset(a) - multiset{a[0]};
    assert multiset(b[1..]) == multiset(b) - multiset{b[0]};
  }

  lemma SameLength(a: seq<Intercepted>, b: seq<Intercepted>)
    requires multiset(a) == multiset(b)
    ensures |a| == |b|
  {
    assert |a| == |multiset(a)| && |b| == |multiset(b)|;
  }

  /** Two sorted sequences of the same uniquely named elements are equal. */
  lemma {:induction false} SortedUnique(a: seq<Intercepted>, b: seq<Intercepted>)
    requires Sorted(a) && Sorted(b) && multiset(a) == multiset(b) && DistinctNames(a)
    ensures a == b
  {
    SameLength(a, b);
    if a != [] {
      FirstsEqual(a, b);
      RestsEqual(a, b);
      assert DistinctNames(a[1..]) && Sorted(a[1..]) && Sorted(b[1..]);
      SortedUnique(a[1..], b[1..]);
      assert a == [a[0]] + a[1..] && b == [b[0]] + b[1..];
    }
  }

  lemma {:induction false} AtMostSelf(a: string)
    ensures AtMost(a, a)
  {
    if a != [] { AtMostSelf(a[1..]); }
  }

  // ── When the posture changes ──

  /** What a rule contributes to the posture. */
  predicate Contributes(r: Rule, x: Intercepted) {
    r.intercept == Some(x.intercept) && x.name == r.name && x.listenAddr == r.listenAddr && x.listenProto == r.listenProto
  }

  /** The rules that intercept, and how. */
  ghost predicate Intercepting(c: Config, x: Intercepted) { exists r :: r in c && Contributes(r, x) }

  ghost predicate SamePosture(a: Config, b: Config) { forall x :: Intercepting(a, x) <==> Intercepting(b, x) }

  lemma {:induction false} InterceptsMembers(c: Config, x: Intercepted)
    ensures x in Intercepts(c) <==> Intercepting(c, x)
  {
    if c != [] {
      var rest, r := c[..|c| - 1], c[|c| - 1];
      InterceptsMembers(rest, x);
      assert c == rest + [r];
      assert Intercepting(c, x) <==> Intercepting(rest, x) || Contributes(r, x) by {
        if Intercepting(rest, x) { var q :| q in rest && Contributes(q, x); assert q in c; }
        if Contributes(r, x) { assert r in c; }
        if Intercepting(c, x) { var q :| q in c && Contributes(q, x); assert q in rest || q == r; }
      }
    }
  }

  lemma {:induction false} InterceptsOnce(c: Config, x: Intercepted)
    requires UniqueNames(c)
    ensures multiset(Intercepts(c))[x] <= 1
  {
    if c != [] {
      var rest, r := c[..|c| - 1], c[|c| - 1];
      InterceptsOnce(rest, x);
      if Contributes(r, x) {
        InterceptsMembers(rest, x);
        NoOther(c, x);
      }
    }
  }

  lemma NoOther(c: Config, x: Intercepted)
    requires UniqueNames(c) && c != [] && c[|c| - 1].name == x.name
    ensures !Intercepting(c[..|c| - 1], x)
  {
  }

  lemma DistinctIntercepts(c: Config)
    requires UniqueNames(c)
    ensures DistinctNames(Intercepts(c))
  {
    hide Intercepts;
    forall x, y | x in Intercepts(c) && y in Intercepts(c) && x.name == y.name ensures x == y {
      InterceptsMembers(c, x);
      InterceptsMembers(c, y);
      var q :| q in c && Contributes(q, x);
      var r :| r in c && Contributes(r, y);
      ByNameFinds(c, q);
      ByNameFinds(c, r);
    }
  }

  /** Two configurations have equal projections exactly when the same rules intercept the same way. */
  lemma ProjectionExactly(a: Config, b: Config)
    requires UniqueNames(a) && UniqueNames(b)
    ensures Projection(a) == Projection(b) <==> SamePosture(a, b)
  {
    hide SortByName, Intercepts, Sorted, DistinctNames, Intercepting;
    var p, q := Projection(a), Projection(b);
    SortSorted(Intercepts(a));
    SortSorted(Intercepts(b));
    if SamePosture(a, b) {
      forall x ensures multiset(Intercepts(a))[x] == multiset(Intercepts(b))[x] {
        InterceptsOnce(a, x);
        InterceptsOnce(b, x);
        InterceptsMembers(a, x);
        InterceptsMembers(b, x);
        assert x in Intercepts(a) <==> x in multiset(Intercepts(a));
        assert x in Intercepts(b) <==> x in multiset(Intercepts(b));
      }
      assert multiset(p) == multiset(q);
      DistinctIntercepts(a);
      DistinctPermutation(Intercepts(a), p);
      SortedUnique(p, q);
    } else {
      var x :| Intercepting(a, x) != Intercepting(b, x);
      InterceptsMembers(a, x);
      InterceptsMembers(b, x);
      assert x in multiset(Intercepts(a)) <==> x !in multiset(Intercepts(b));
    }
  }

  lemma DistinctPermutation(s: seq<Intercepted>, t: seq<Intercepted>)
    requires DistinctNames(s) && multiset(s) == multiset(t)
    ensures DistinctNames(t)
  {
    forall x | x in t ensures x in s { assert x in multiset(t); }
  }

  /** Nothing added, changed or removed: the watcher does not call its handler. */
  predicate QuietDiff(a: Config, b: Config) {
    && Filter(IsAdded(ByName(a)), b) == []
    && Filter(IsChanged(ByName(a)), b) == []
    && Filter(IsRemoved(ByName(b)), a) == []
  }

  /** Empty buckets mean the same names with agreeing rules. */
  lemma NoChanges(a: Config, b: Config)
    requires UniqueNames(a) && UniqueNames(b)
    requires QuietDiff(a, b)
    ensures Covered(a, b) && Covered(b, a)
  {
    hide Alike, Filter;
    forall r | r in b ensures exists q :: q in a && q.name == r.name && Alike(r, q) {
      FilterEmpty(IsAdded(ByName(a)), b, r);
      FilterEmpty(IsChanged(ByName(a)), b, r);
      var q := ByName(a)[r.name];
      AgreementIsEquivalence(q, r, r);
      assert q in a && q.name == r.name && Alike(r, q);
    }
    forall q | q in a ensures exists r :: r in b && q.name == r.name && Alike(q, r) {
      FilterEmpty(IsRemoved(ByName(b)), a, q);
      var r := ByName(b)[q.name];
      FilterEmpty(IsChanged(ByName(a)), b, r);
      ByNameFinds(a, q);
      assert r in b && q.name == r.name && Alike(q, r);
    }
  }

  lemma FilterEmpty(p: Rule -> bool, s: seq<Rule>, x: Rule)
    requires Filter(p, s) == [] && x in s
    ensures !p(x)
  {
    assert x !in Filter(p, s);
  }

  /** Every rule of `a` has an agreeing namesake in `b`. */
  ghost predicate Covered(a: Config, b: Config) {
    forall q :: q in a ==> exists r :: r in b && q.name == r.name && Alike(q, r)
  }

  lemma CoveredPosture(a: Config, b: Config, x: Intercepted)
    requires Covered(a, b) && Intercepting(a, x)
    ensures Intercepting(b, x)
  {
    hide Alike;
    var q :| q in a && Contributes(q, x);
    var r :| r in b && q.name == r.name && Alike(q, r);
    AgreementIsEquivalence(q, r, r);
    assert Contributes(r, x);
  }

  lemma CoveredBoth(a: Config, b: Config)
    requires Covered(a, b) && Covered(b, a)
    ensures SamePosture(a, b)
  {
    hide Covered, Intercepting;
    forall x ensures Intercepting(a, x) <==> Intercepting(b, x) {
      if Intercepting(a, x) { CoveredPosture(a, b, x); }
      if Intercepting(b, x) { CoveredPosture(b, a, x); }
    }
  }

  /** A change of the interception posture always shows in a bucket, so a watcher that acts only on
      non-empty buckets never skips a firewall reconcile. */
  lemma InterceptChangeShows(a: Config, b: Config)
    requires UniqueNames(a) && UniqueNames(b) && Projection(a) != Projection(b)
    ensures !QuietDiff(a, b)
  {
    hide Projection, Filter, Covered, SamePosture;
    ProjectionExactly(a, b);
    if QuietDiff(a, b) {
      NoChanges(a, b);
      CoveredBoth(a, b);
    }
  }
}
