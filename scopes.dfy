/** The scope aggregator shared by `GatewayMapping` and `GatewayMap`: the join
    mapping -> pipeline (by id) -> `auth` policy, the entries it appends to the
    scope dictionary, and the dictionary they build.

    `ScopeIndex` is the specification of `buildScopes`: the entries that the
    nested loops append, in the order they append them, folded into a
    dictionary. `ExpectedRoutes` describes the same result by counting over
    the same two filters, and `ScopeIndexExact` proves the two agree. */
module Scopes {
  import opened Entities

  datatype Route = Route(verb: string, endpoint: string)

  /** One `routes.push`: a route appended under a scope name. */
  datatype Entry = Entry(scope: string, route: Route)

  type ScopeMap = map<string, seq<Route>>

  function RouteOf(m: Mapping): Route
  {
    Route(m.verb, m.endpoint)
  }

  /** The routes under `s`, the empty list for an absent key. */
  function Lookup(acc: ScopeMap, s: string): seq<Route>
  {
    if s in acc then acc[s] else []
  }

  /** Append one route under its scope, creating the list on first use. */
  function Add(acc: ScopeMap, e: Entry): ScopeMap
  {
    acc[e.scope := Lookup(acc, e.scope) + [e.route]]
  }

  /** Apply the entries to the dictionary, first to last. */
  function Extend(acc: ScopeMap, es: seq<Entry>): ScopeMap
    decreases |es|
  {
    if es == [] then acc else Add(Extend(acc, es[..|es| - 1]), es[|es| - 1])
  }

  /** The routes of the entries filed under `s`, in entry order. */
  function Select(es: seq<Entry>, s: string): seq<Route>
    decreases |es|
  {
    if es == [] then []
    else
      var n := |es| - 1;
      Select(es[..n], s) + (if es[n].scope == s then [es[n].route] else [])
  }

  /** A dictionary without empty lists keeps none after entries are applied. */
  lemma {:induction false} ExtendKeepsNonEmpty(acc: ScopeMap, es: seq<Entry>)
    requires forall s :: s in acc ==> acc[s] != []
    ensures forall s :: s in Extend(acc, es) ==> Extend(acc, es)[s] != []
    decreases |es|
  {
    if es != [] {
      ExtendKeepsNonEmpty(acc, es[..|es| - 1]);
    }
  }

  /** Applying entries appends, under each scope, exactly the routes of the
      entries filed there, and creates a key exactly when some entry has it. */
  lemma {:induction false} ExtendLookup(acc: ScopeMap, es: seq<Entry>, s: string)
    ensures Lookup(Extend(acc, es), s) == Lookup(acc, s) + Select(es, s)
    ensures s in Extend(acc, es) <==> s in acc || Select(es, s) != []
    decreases |es|
  {
    if es != [] {
      ExtendLookup(acc, es[..|es| - 1], s);
    }
  }

  lemma {:induction false} ExtendAppend(acc: ScopeMap, a: seq<Entry>, b: seq<Entry>)
    ensures Extend(acc, a + b) == Extend(Extend(acc, a), b)
    decreases |b|
  {
    if b == [] {
      assert a + b == a;
    } else {
      var n := |b| - 1;
      assert (a + b)[..|a + b| - 1] == a + b[..n];
      ExtendAppend(acc, a, b[..n]);
    }
  }

  lemma {:induction false} SelectAppend(a: seq<Entry>, b: seq<Entry>, s: string)
    ensures Select(a + b, s) == Select(a, s) + Select(b, s)
    decreases |b|
  {
    if b == [] {
      assert a + b == a;
    } else {
      var n := |b| - 1;
      assert (a + b)[..|a + b| - 1] == a + b[..n];
      SelectAppend(a, b[..n], s);
    }
  }

  /** `pipelines.filter(p => m.pipelineId === p.id)`. */
  function MatchedPipelines(ps: seq<Pipeline>, m: Mapping): (r: seq<Pipeline>)
    ensures forall p :: p in r <==> p in ps && m.pipelineId == Some(p.id)
    decreases |ps|
  {
    if ps == [] then []
    else
      var n := |ps| - 1;
      MatchedPipelines(ps[..n], m) + (if m.pipelineId == Some(ps[n].id) then [ps[n]] else [])
  }

  /** The filter works piecewise: each matching pipeline is kept once, in array order. */
  lemma {:induction false} MatchedPipelinesAppend(a: seq<Pipeline>, b: seq<Pipeline>, m: Mapping)
    ensures MatchedPipelines(a + b, m) == MatchedPipelines(a, m) + MatchedPipelines(b, m)
    decreases |b|
  {
    if b == [] {
      assert a + b == a;
    } else {
      var n := |b| - 1;
      assert (a + b)[..|a + b| - 1] == a + b[..n];
      assert (a + b)[|a + b| - 1] == b[n];
      MatchedPipelinesAppend(a, b[..n], m);
    }
  }

  /** `policies.filter(q => q.type === 'auth' && p.policyIds.indexOf(q.id) !== -1)`:
      the order is that of the policies list, not that of `policyIds`. */
  function MatchedPolicies(qs: seq<Policy>, p: Pipeline): (r: seq<Policy>)
    ensures |r| <= |qs|
    decreases |qs|
  {
    if qs == [] then []
    else
      var n := |qs| - 1;
      MatchedPolicies(qs[..n], p) + (if qs[n].policyType == "auth" && qs[n].id in p.policyIds then [qs[n]] else [])
  }

  /** The filter keeps exactly the `auth` policies whose id the pipeline lists. */
  lemma {:induction false} MatchedPoliciesMember(qs: seq<Policy>, p: Pipeline, q: Policy)
    ensures q in MatchedPolicies(qs, p) <==> q in qs && q.policyType == "auth" && q.id in p.policyIds
    decreases |qs|
  {
    if qs != [] {
      var n := |qs| - 1;
      MatchedPoliciesMember(qs[..n], p, q);
      assert qs == qs[..n] + [qs[n]];
    }
  }

  /** The filter keeps the policies in policies-list order. */
  lemma {:induction false} MatchedPoliciesAppend(a: seq<Policy>, b: seq<Policy>, p: Pipeline)
    ensures MatchedPolicies(a + b, p) == MatchedPolicies(a, p) + MatchedPolicies(b, p)
    decreases |b|
  {
    if b == [] {
      assert a + b == a;
    } else {
      var n := |b| - 1;
      assert (a + b)[..|a + b| - 1] == a + b[..n];
      assert (a + b)[|a + b| - 1] == b[n];
      MatchedPoliciesAppend(a, b[..n], p);
    }
  }

  /** One entry per scope name, in the order of the list. */
  function ScopeEntries(ss: seq<string>, route: Route): seq<Entry>
  {
    seq(|ss|, k requires 0 <= k < |ss| => Entry(ss[k], route))
  }

  /** A policy without `scopes` contributes nothing. */
  function PolicyEntries(q: Policy, route: Route): seq<Entry>
  {
    if q.scopes.Some? then ScopeEntries(q.scopes.value, route) else []
  }

  function PoliciesEntries(qs: seq<Policy>, route: Route): seq<Entry>
    decreases |qs|
  {
    if qs == [] then []
    else
      var n := |qs| - 1;
      PoliciesEntries(qs[..n], route) + PolicyEntries(qs[n], route)
  }

  function PipelinesEntries(ps: seq<Pipeline>, qs: seq<Policy>, route: Route): seq<Entry>
    decreases |ps|
  {
    if ps == [] then []
    else
      var n := |ps| - 1;
      PipelinesEntries(ps[..n], qs, route) + PoliciesEntries(MatchedPolicies(qs, ps[n]), route)
  }

  /** What one mapping contributes: pipeline order, then policies-list order,
      then `scopes` order. */
  function MappingEntries(m: Mapping, ps: seq<Pipeline>, qs: seq<Policy>): seq<Entry>
  {
    PipelinesEntries(MatchedPipelines(ps, m), qs, RouteOf(m))
  }

  /** Every entry `buildScopes` appends, in the order it appends them. */
  function Contributions(ms: seq<Mapping>, ps: seq<Pipeline>, qs: seq<Policy>): seq<Entry>
    decreases |ms|
  {
    if ms == [] then []
    else
      var n := |ms| - 1;
      Contributions(ms[..n], ps, qs) + MappingEntries(ms[n], ps, qs)
  }

  /** The dictionary `buildScopes` returns; a scope gets a key only with its
      first route, so no key holds an empty list. */
  function ScopeIndex(ms: seq<Mapping>, ps: seq<Pipeline>, qs: seq<Policy>): (r: ScopeMap)
    ensures forall s :: s in r ==> r[s] != []
  {
    var es := Contributions(ms, ps, qs);
    ExtendKeepsNonEmpty(map[], es);
    Extend(map[], es)
  }

  // ---------------------------------------------------------------------
  // The same result described by counting.

  /** The join condition: mapping `m` uses pipeline `p`, which lists the
      `auth` policy `q`, whose scopes include `s`. */
  ghost predicate Reaches(m: Mapping, p: Pipeline, q: Policy, s: string)
  {
    && m.pipelineId == Some(p.id)
    && q.policyType == "auth"
    && q.id in p.policyIds
    && q.scopes.Some?
    && s in q.scopes.value
  }

  function Occurrences(ss: seq<string>, s: string): nat
    decreases |ss|
  {
    if ss == [] then 0
    else
      var n := |ss| - 1;
      Occurrences(ss[..n], s) + (if ss[n] == s then 1 else 0)
  }

  function PolicyCount(qs: seq<Policy>, s: string): nat
    decreases |qs|
  {
    if qs == [] then 0
    else
      var n := |qs| - 1;
      PolicyCount(qs[..n], s) + (if qs[n].scopes.Some? then Occurrences(qs[n].scopes.value, s) else 0)
  }

  function PipelineCount(ps: seq<Pipeline>, qs: seq<Policy>, s: string): nat
    decreases |ps|
  {
    if ps == [] then 0
    else
      var n := |ps| - 1;
      PipelineCount(ps[..n], qs, s) + PolicyCount(MatchedPolicies(qs, ps[n]), s)
  }

  /** How many times mapping `m` is filed under `s`: once per matched
      pipeline, matched `auth` policy and occurrence of `s` in its scopes. */
  function Multiplicity(m: Mapping, ps: seq<Pipeline>, qs: seq<Policy>, s: string): nat
  {
    PipelineCount(MatchedPipelines(ps, m), qs, s)
  }

  function Repeat(route: Route, n: nat): seq<Route>
  {
    seq(n, _ => route)
  }

  /** Under `s`: each mapping's route, as many times as its multiplicity, in
      mapping order, with no deduplication. */
  function ExpectedRoutes(ms: seq<Mapping>, ps: seq<Pipeline>, qs: seq<Policy>, s: string): seq<Route>
    decreases |ms|
  {
    if ms == [] then []
    else
      var n := |ms| - 1;
      ExpectedRoutes(ms[..n], ps, qs, s) + Repeat(RouteOf(ms[n]), Multiplicity(ms[n], ps, qs, s))
  }

  lemma RepeatAppend(route: Route, a: nat, b: nat)
    ensures Repeat(route, a + b) == Repeat(route, a) + Repeat(route, b)
  {
    assert |Repeat(route, a) + Repeat(route, b)| == a + b;
  }

  lemma RepeatMember(route: Route, n: nat, x: Route)
    ensures x in Repeat(route, n) <==> n > 0 && x == route
  {
    if n > 0 {
      assert Repeat(route, n)[0] == route;
    }
  }

  lemma {:induction false} SelectScopeEntries(ss: seq<string>, route: Route, s: string)
    ensures Select(ScopeEntries(ss, route), s) == Repeat(route, Occurrences(ss, s))
    decreases |ss|
  {
    if ss != [] {
      var n := |ss| - 1;
      var es := ScopeEntries(ss, route);
      assert es[..|es| - 1] == ScopeEntries(ss[..n], route);
      SelectScopeEntries(ss[..n], route, s);
      RepeatAppend(route, Occurrences(ss[..n], s), if ss[n] == s then 1 else 0);
    }
  }

  lemma {:induction false} SelectPolicies(qs: seq<Policy>, route: Route, s: string)
    ensures Select(PoliciesEntries(qs, route), s) == Repeat(route, PolicyCount(qs, s))
    decreases |qs|
  {
    if qs != [] {
      var n := |qs| - 1;
      SelectPolicies(qs[..n], route, s);
      SelectAppend(PoliciesEntries(qs[..n], route), PolicyEntries(qs[n], route), s);
      if qs[n].scopes.Some? {
        SelectScopeEntries(qs[n].scopes.value, route, s);
        RepeatAppend(route, PolicyCount(qs[..n], s), Occurrences(qs[n].scopes.value, s));
      } else {
        RepeatAppend(route, PolicyCount(qs[..n], s), 0);
      }
    }
  }

  lemma {:induction false} SelectPipelines(ps: seq<Pipeline>, qs: seq<Policy>, route: Route, s: string)
    ensures Select(PipelinesEntries(ps, qs, route), s) == Repeat(route, PipelineCount(ps, qs, s))
    decreases |ps|
  {
    if ps != [] {
      var n := |ps| - 1;
      var mq := MatchedPolicies(qs, ps[n]);
      SelectPipelines(ps[..n], qs, route, s);
      SelectAppend(PipelinesEntries(ps[..n], qs, route), PoliciesEntries(mq, route), s);
      SelectPolicies(mq, route, s);
      RepeatAppend(route, PipelineCount(ps[..n], qs, s), PolicyCount(mq, s));
    }
  }

  lemma {:induction false} SelectContributions(ms: seq<Mapping>, ps: seq<Pipeline>, qs: seq<Policy>, s: string)
    ensures Select(Contributions(ms, ps, qs), s) == ExpectedRoutes(ms, ps, qs, s)
    decreases |ms|
  {
    if ms != [] {
      var n := |ms| - 1;
      SelectContributions(ms[..n], ps, qs, s);
      SelectAppend(Contributions(ms[..n], ps, qs), MappingEntries(ms[n], ps, qs), s);
      SelectPipelines(MatchedPipelines(ps, ms[n]), qs, RouteOf(ms[n]), s);
    }
  }

  /** `buildScopes` files under `s` exactly the expected routes: mapping
      order, one entry per (pipeline, auth policy, scope occurrence) match,
      duplicates kept; and `s` is a key exactly when that list is non-empty. */
  lemma ScopeIndexExact(ms: seq<Mapping>, ps: seq<Pipeline>, qs: seq<Policy>, s: string)
    ensures Lookup(ScopeIndex(ms, ps, qs), s) == ExpectedRoutes(ms, ps, qs, s)
    ensures s in ScopeIndex(ms, ps, qs) <==> ExpectedRoutes(ms, ps, qs, s) != []
  {
    ExtendLookup(map[], Contributions(ms, ps, qs), s);
    SelectContributions(ms, ps, qs, s);
  }

  lemma {:induction false} ExpectedRoutesAppend(ms1: seq<Mapping>, ms2: seq<Mapping>, ps: seq<Pipeline>, qs: seq<Policy>, s: string)
    ensures ExpectedRoutes(ms1 + ms2, ps, qs, s) == ExpectedRoutes(ms1, ps, qs, s) + ExpectedRoutes(ms2, ps, qs, s)
    decreases |ms2|
  {
    if ms2 == [] {
      assert ms1 + ms2 == ms1;
    } else {
      var n := |ms2| - 1;
      var last := Repeat(RouteOf(ms2[n]), Multiplicity(ms2[n], ps, qs, s));
      assert (ms1 + ms2)[..|ms1 + ms2| - 1] == ms1 + ms2[..n];
      assert (ms1 + ms2)[|ms1 + ms2| - 1] == ms2[n];
      assert ExpectedRoutes(ms1 + ms2, ps, qs, s) == ExpectedRoutes(ms1 + ms2[..n], ps, qs, s) + last;
      assert ExpectedRoutes(ms2, ps, qs, s) == ExpectedRoutes(ms2[..n], ps, qs, s) + last;
      ExpectedRoutesAppend(ms1, ms2[..n], ps, qs, s);
    }
  }

  /** Mapping order: the routes of earlier mappings come before those of
      later mappings, under every scope. */
  lemma ScopeIndexMappingOrder(ms1: seq<Mapping>, ms2: seq<Mapping>, ps: seq<Pipeline>, qs: seq<Policy>, s: string)
    ensures Lookup(ScopeIndex(ms1 + ms2, ps, qs), s) == Lookup(ScopeIndex(ms1, ps, qs), s) + Lookup(ScopeIndex(ms2, ps, qs), s)
  {
    ScopeIndexExact(ms1 + ms2, ps, qs, s);
    ScopeIndexExact(ms1, ps, qs, s);
    ScopeIndexExact(ms2, ps, qs, s);
    ExpectedRoutesAppend(ms1, ms2, ps, qs, s);
  }

  lemma {:induction false} OccurrencesPositive(ss: seq<string>, s: string)
    ensures Occurrences(ss, s) > 0 <==> s in ss
    decreases |ss|
  {
    if ss != [] {
      var n := |ss| - 1;
      OccurrencesPositive(ss[..n], s);
      assert ss == ss[..n] + [ss[n]];
    }
  }

  lemma {:induction false} PolicyCountPositive(qs: seq<Policy>, s: string)
    ensures PolicyCount(qs, s) > 0 <==> exists q :: q in qs && q.scopes.Some? && s in q.scopes.value
    decreases |qs|
  {
    if qs != [] {
      var n := |qs| - 1;
      PolicyCountPositive(qs[..n], s);
      assert qs == qs[..n] + [qs[n]];
      if qs[n].scopes.Some? {
        OccurrencesPositive(qs[n].scopes.value, s);
      }
    }
  }

  /** Pipeline `p` files the route under `s` at least once. */
  ghost predicate PipelineReaches(p: Pipeline, qs: seq<Policy>, s: string)
  {
    PolicyCount(MatchedPolicies(qs, p), s) > 0
  }

  /** Each pipeline's own count is part of the total. */
  lemma {:induction false} PipelineCountAtLeast(ps: seq<Pipeline>, qs: seq<Policy>, s: string, j: nat)
    requires j < |ps|
    ensures PipelineCount(ps, qs, s) >= PolicyCount(MatchedPolicies(qs, ps[j]), s)
    decreases |ps|
  {
    var n := |ps| - 1;
    if j < n {
      assert ps[..n][j] == ps[j];
      PipelineCountAtLeast(ps[..n], qs, s, j);
    }
  }

  lemma {:induction false} PipelineCountWitness(ps: seq<Pipeline>, qs: seq<Policy>, s: string)
    requires PipelineCount(ps, qs, s) > 0
    ensures exists j :: 0 <= j < |ps| && PipelineReaches(ps[j], qs, s)
    decreases |ps|
  {
    var n := |ps| - 1;
    assert PipelineCount(ps, qs, s) == PipelineCount(ps[..n], qs, s) + PolicyCount(MatchedPolicies(qs, ps[n]), s);
    if !PipelineReaches(ps[n], qs, s) {
      PipelineCountWitness(ps[..n], qs, s);
      var j :| 0 <= j < n && PipelineReaches(ps[..n][j], qs, s);
      assert ps[..n][j] == ps[j];
    }
  }

  /** A mapping is filed under `s` at least once exactly when the join
      reaches `s` from it. */
  lemma MultiplicityPositive(m: Mapping, ps: seq<Pipeline>, qs: seq<Policy>, s: string)
    ensures Multiplicity(m, ps, qs, s) > 0 <==> exists p, q :: p in ps && q in qs && Reaches(m, p, q, s)
  {
    var mp := MatchedPipelines(ps, m);
    if Multiplicity(m, ps, qs, s) > 0 {
      PipelineCountWitness(mp, qs, s);
      var j :| 0 <= j < |mp| && PipelineReaches(mp[j], qs, s);
      var p := mp[j];
      PolicyCountPositive(MatchedPolicies(qs, p), s);
      var q :| q in MatchedPolicies(qs, p) && q.scopes.Some? && s in q.scopes.value;
      MatchedPoliciesMember(qs, p, q);
      assert Reaches(m, p, q, s);
    }
    if exists p, q :: p in ps && q in qs && Reaches(m, p, q, s) {
      var p, q :| p in ps && q in qs && Reaches(m, p, q, s);
      MatchedPoliciesMember(qs, p, q);
      PolicyCountPositive(MatchedPolicies(qs, p), s);
      assert p in mp;
      var j :| 0 <= j < |mp| && mp[j] == p;
      PipelineCountAtLeast(mp, qs, s, j);
    }
  }

  /** Mapping `m` is filed, with route `route`, under `s`. */
  ghost predicate Filed(m: Mapping, ps: seq<Pipeline>, qs: seq<Policy>, s: string, route: Route)
  {
    route == RouteOf(m) && Multiplicity(m, ps, qs, s) > 0
  }

  lemma {:induction false} ExpectedRoutesListed(ms: seq<Mapping>, ps: seq<Pipeline>, qs: seq<Policy>, s: string, j: nat)
    requires j < |ms| && Multiplicity(ms[j], ps, qs, s) > 0
    ensures RouteOf(ms[j]) in ExpectedRoutes(ms, ps, qs, s)
    decreases |ms|
  {
    var n := |ms| - 1;
    var rep := Repeat(RouteOf(ms[n]), Multiplicity(ms[n], ps, qs, s));
    assert ExpectedRoutes(ms, ps, qs, s) == ExpectedRoutes(ms[..n], ps, qs, s) + rep;
    if j == n {
      RepeatMember(RouteOf(ms[n]), Multiplicity(ms[n], ps, qs, s), RouteOf(ms[j]));
    } else {
      assert ms[..n][j] == ms[j];
      ExpectedRoutesListed(ms[..n], ps, qs, s, j);
    }
  }

  lemma {:induction false} ExpectedRoutesFiled(ms: seq<Mapping>, ps: seq<Pipeline>, qs: seq<Policy>, s: string, route: Route)
    requires route in ExpectedRoutes(ms, ps, qs, s)
    ensures exists j :: 0 <= j < |ms| && Filed(ms[j], ps, qs, s, route)
    decreases |ms|
  {
    var n := |ms| - 1;
    var rep := Repeat(RouteOf(ms[n]), Multiplicity(ms[n], ps, qs, s));
    assert ExpectedRoutes(ms, ps, qs, s) == ExpectedRoutes(ms[..n], ps, qs, s) + rep;
    if route in rep {
      RepeatMember(RouteOf(ms[n]), Multiplicity(ms[n], ps, qs, s), route);
      assert Filed(ms[n], ps, qs, s, route);
    } else {
      ExpectedRoutesFiled(ms[..n], ps, qs, s, route);
      var j :| 0 <= j < n && Filed(ms[..n][j], ps, qs, s, route);
      assert ms[..n][j] == ms[j];
    }
  }

  /** Soundness: every route under `s` belongs to a mapping from which the
      join reaches `s`. */
  lemma ScopeIndexSound(ms: seq<Mapping>, ps: seq<Pipeline>, qs: seq<Policy>, s: string, route: Route)
    requires s in ScopeIndex(ms, ps, qs) && route in ScopeIndex(ms, ps, qs)[s]
    ensures exists m, p, q :: m in ms && p in ps && q in qs && Reaches(m, p, q, s) && route == RouteOf(m)
  {
    ScopeIndexExact(ms, ps, qs, s);
    ExpectedRoutesFiled(ms, ps, qs, s, route);
    var j :| 0 <= j < |ms| && Filed(ms[j], ps, qs, s, route);
    MultiplicityPositive(ms[j], ps, qs, s);
  }

  /** Completeness: every mapping from which the join reaches `s` has its
      route filed under `s`. */
  lemma ScopeIndexComplete(ms: seq<Mapping>, ps: seq<Pipeline>, qs: seq<Policy>, m: Mapping, p: Pipeline, q: Policy, s: string)
    requires m in ms && p in ps && q in qs && Reaches(m, p, q, s)
    ensures s in ScopeIndex(ms, ps, qs) && RouteOf(m) in ScopeIndex(ms, ps, qs)[s]
  {
    MultiplicityPositive(m, ps, qs, s);
    var j :| 0 <= j < |ms| && ms[j] == m;
    ExpectedRoutesListed(ms, ps, qs, s, j);
    ScopeIndexExact(ms, ps, qs, s);
  }

  /** Nothing reachable, nothing returned: mappings without a matching
      pipeline, non-`auth` policies and policies without scopes add no key. */
  lemma ScopeIndexEmptyWhenUnreachable(ms: seq<Mapping>, ps: seq<Pipeline>, qs: seq<Policy>)
    requires forall m, p, q, s :: m in ms && p in ps && q in qs ==> !Reaches(m, p, q, s)
    ensures ScopeIndex(ms, ps, qs) == map[]
  {
    var idx := ScopeIndex(ms, ps, qs);
    forall s | s in idx ensures false {
      ScopeIndexSound(ms, ps, qs, s, idx[s][0]);
    }
  }

  // ---------------------------------------------------------------------
  // The loops of `buildScopes` and of the include-based fold, shared by
  // both model files.

  /** `policy.scopes.forEach(s => scopes[s].push(route))`. */
  method AppendScopeRoutes(acc: ScopeMap, ss: seq<string>, route: Route) returns (r: ScopeMap)
    ensures r == Extend(acc, ScopeEntries(ss, route))
  {
    r := acc;
    var k := 0;
    while k < |ss|
      invariant 0 <= k <= |ss|
      invariant r == Extend(acc, ScopeEntries(ss[..k], route))
    {
      var s := ss[k];
      var routes := if s in r then r[s] else [];
      r := r[s := routes + [route]];
      ghost var next := ScopeEntries(ss[..k + 1], route);
      assert next[..|next| - 1] == ScopeEntries(ss[..k], route);
      k := k + 1;
    }
    assert ss[..k] == ss;
  }

  /** `matchedPolicies.forEach(policy => if (policy.scopes) ...)`. */
  method AppendPolicyRoutes(acc: ScopeMap, qs: seq<Policy>, route: Route) returns (r: ScopeMap)
    ensures r == Extend(acc, PoliciesEntries(qs, route))
  {
    r := acc;
    var k := 0;
    while k < |qs|
      invariant 0 <= k <= |qs|
      invariant r == Extend(acc, PoliciesEntries(qs[..k], route))
    {
      assert qs[..k + 1][..k] == qs[..k];
      ExtendAppend(acc, PoliciesEntries(qs[..k], route), PolicyEntries(qs[k], route));
      if qs[k].scopes.Some? {
        r := AppendScopeRoutes(r, qs[k].scopes.value, route);
      }
      k := k + 1;
    }
    assert qs[..k] == qs;
  }

  /** The body run for one mapping: every matched pipeline, in order. */
  method AppendMappingRoutes(acc: ScopeMap, m: Mapping, ps: seq<Pipeline>, qs: seq<Policy>) returns (r: ScopeMap)
    ensures r == Extend(acc, MappingEntries(m, ps, qs))
  {
    var matched := MatchedPipelines(ps, m);
    r := acc;
    var k := 0;
    while k < |matched|
      invariant 0 <= k <= |matched|
      invariant r == Extend(acc, PipelinesEntries(matched[..k], qs, RouteOf(m)))
    {
      var policies := MatchedPolicies(qs, matched[k]);
      assert matched[..k + 1][..k] == matched[..k];
      ExtendAppend(acc, PipelinesEntries(matched[..k], qs, RouteOf(m)), PoliciesEntries(policies, RouteOf(m)));
      r := AppendPolicyRoutes(r, policies, RouteOf(m));
      k := k + 1;
    }
    assert matched[..k] == matched;
  }

  // ---------------------------------------------------------------------
  // The store-joined variant: each mapping with its `pipeline` relation
  // included, and that pipeline with its `policies` relation restricted to
  // `type == 'auth'`.

  datatype JoinedPipeline = JoinedPipeline(policies: Option<seq<Policy>>)
  datatype JoinedMapping = JoinedMapping(verb: string, endpoint: string, pipeline: Option<JoinedPipeline>)

  /** What the fold appends for one joined mapping: nothing without a
      resolved pipeline or without its policies. */
  function JoinedOne(j: JoinedMapping): seq<Entry>
  {
    if j.pipeline.Some? && j.pipeline.value.policies.Some?
    then PoliciesEntries(j.pipeline.value.policies.value, Route(j.verb, j.endpoint))
    else []
  }

  function JoinedEntries(js: seq<JoinedMapping>): seq<Entry>
    decreases |js|
  {
    if js == [] then []
    else
      var n := |js| - 1;
      JoinedEntries(js[..n]) + JoinedOne(js[n])
  }

  /** The include, resolved against in-memory lists: the mapping's pipeline
      is the first pipeline with that id, and its policies are the `auth`
      policies it lists, in policies-list order. */
  function Join(m: Mapping, ps: seq<Pipeline>, qs: seq<Policy>): (r: JoinedMapping)
    ensures r.verb == m.verb && r.endpoint == m.endpoint
    ensures r.pipeline.None? <==> forall p :: p in ps ==> m.pipelineId != Some(p.id)
    ensures r.pipeline.Some? ==> r.pipeline.value.policies.Some?
  {
    var matched := MatchedPipelines(ps, m);
    assert matched != [] ==> matched[0] in matched;
    JoinedMapping(m.verb, m.endpoint,
      if matched == [] then None else Some(JoinedPipeline(Some(MatchedPolicies(qs, matched[0])))))
  }

  function Include(ms: seq<Mapping>, ps: seq<Pipeline>, qs: seq<Policy>): (r: seq<JoinedMapping>)
    ensures |r| == |ms|
    ensures forall k :: 0 <= k < |ms| ==> r[k].verb == ms[k].verb && r[k].endpoint == ms[k].endpoint
  {
    seq(|ms|, k requires 0 <= k < |ms| => Join(ms[k], ps, qs))
  }

  /** Pipeline ids are primary keys. */
  ghost predicate UniqueIds(ps: seq<Pipeline>)
  {
    forall a, b :: 0 <= a < b < |ps| ==> ps[a].id != ps[b].id
  }

  lemma {:induction false} NoMatch(ps: seq<Pipeline>, m: Mapping)
    requires forall p :: p in ps ==> m.pipelineId != Some(p.id)
    ensures MatchedPipelines(ps, m) == []
    decreases |ps|
  {
    if ps != [] {
      var n := |ps| - 1;
      forall p | p in ps[..n] ensures m.pipelineId != Some(p.id) {
        assert p in ps;
      }
      NoMatch(ps[..n], m);
      assert ps[n] in ps;
    }
  }

  lemma {:induction false} AtMostOneMatch(ps: seq<Pipeline>, m: Mapping)
    requires UniqueIds(ps)
    ensures |MatchedPipelines(ps, m)| <= 1
    decreases |ps|
  {
    if ps != [] {
      var n := |ps| - 1;
      AtMostOneMatch(ps[..n], m);
      if m.pipelineId == Some(ps[n].id) {
        var earlier := MatchedPipelines(ps[..n], m);
        forall p | p in ps[..n] ensures m.pipelineId != Some(p.id) {
          var a :| 0 <= a < n && ps[a] == p;
        }
        NoMatch(ps[..n], m);
      }
    }
  }

  /** A resolved pipeline carries exactly the `auth` policies listed by a
      pipeline that has the mapping's id, in policies-list order. */
  lemma JoinPolicies(m: Mapping, ps: seq<Pipeline>, qs: seq<Policy>, q: Policy)
    ensures var j := Join(m, ps, qs);
      j.pipeline.Some? ==>
        var p := MatchedPipelines(ps, m)[0];
        && p in ps && m.pipelineId == Some(p.id)
        && j.pipeline.value.policies == Some(MatchedPolicies(qs, p))
        && (q in j.pipeline.value.policies.value <==> q in qs && q.policyType == "auth" && q.id in p.policyIds)
  {
    var matched := MatchedPipelines(ps, m);
    if matched != [] {
      assert matched[0] in matched;
      MatchedPoliciesMember(qs, matched[0], q);
    }
  }

  lemma JoinAgrees(m: Mapping, ps: seq<Pipeline>, qs: seq<Policy>)
    requires UniqueIds(ps)
    ensures JoinedOne(Join(m, ps, qs)) == MappingEntries(m, ps, qs)
  {
    var matched := MatchedPipelines(ps, m);
    AtMostOneMatch(ps, m);
    if matched != [] {
      assert matched == [matched[0]];
      assert matched[..0] == [];
      assert PipelinesEntries(matched, qs, RouteOf(m)) == PoliciesEntries(MatchedPolicies(qs, matched[0]), RouteOf(m));
    }
  }

  lemma {:induction false} JoinedEntriesAgree(ms: seq<Mapping>, ps: seq<Pipeline>, qs: seq<Policy>)
    requires UniqueIds(ps)
    ensures JoinedEntries(Include(ms, ps, qs)) == Contributions(ms, ps, qs)
    decreases |ms|
  {
    if ms != [] {
      var n := |ms| - 1;
      var js := Include(ms, ps, qs);
      assert js[..|js| - 1] == Include(ms[..n], ps, qs);
      JoinedEntriesAgree(ms[..n], ps, qs);
      JoinAgrees(ms[n], ps, qs);
    }
  }

  /** With pipeline ids unique, the include-based fold over the joined
      mappings builds the same dictionary as `buildScopes` over the lists. */
  lemma IncludeFoldAgrees(ms: seq<Mapping>, ps: seq<Pipeline>, qs: seq<Policy>)
    requires UniqueIds(ps)
    ensures Extend(map[], JoinedEntries(Include(ms, ps, qs))) == ScopeIndex(ms, ps, qs)
  {
    JoinedEntriesAgree(ms, ps, qs);
  }
}
