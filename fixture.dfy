/** The configuration of the workspace's policy-config test suite: three
    policies (one `auth` policy with two scopes), one pipeline chaining all
    three, and three gateway mappings, two of which use that pipeline and one
    of which names a pipeline that does not exist. Each lemma states what the
    suite expects of one operation on this configuration. */
module PolicyConfigFixture {
  import opened Entities
  import opened Scopes
  import Policies
  import Pipelines

  const AuthCatalog := Policy("auth-catalog", "auth-catalog", "auth", Some(["catalog", "shopping"]))
  const RateLimiter := Policy("rate-limiter-per-minute", "rate-limiter-per-minute", "rateLimiting", None)
  const Proxy := Policy("proxy-to-catalog", "proxy-to-catalog", "reverseProxy", None)

  const DefaultPipeline := Pipeline("default-pipeline", "default-pipeline",
    ["auth-catalog", "rate-limiter-per-minute", "proxy-to-catalog"])

  const CatalogMapping := Mapping("catalog", "catalog", "GET", "/api/catalog", Some("default-pipeline"))
  const InvoiceMapping := Mapping("invoice", "invoice", "ALL", "/api/invoices", Some("default-pipeline"))
  const OrderMapping := Mapping("order", "order", "ALL", "/api/orders", Some("order-pipeline"))

  const Fixture := Config([AuthCatalog, RateLimiter, Proxy], [DefaultPipeline],
    [CatalogMapping, InvoiceMapping, OrderMapping])

  /** The scopes the suite expects: both scopes of `auth-catalog`, each with
      the two mappings that use the default pipeline, in creation order. */
  const ExpectedScopes: ScopeMap := map[
    "catalog" := [Route("GET", "/api/catalog"), Route("ALL", "/api/invoices")],
    "shopping" := [Route("GET", "/api/catalog"), Route("ALL", "/api/invoices")]]

  /** What a mapping on the default pipeline appends: its route under each
      scope of `auth-catalog`, in the order the policy lists them. */
  function Both(route: Route): seq<Entry>
  {
    [Entry("catalog", route), Entry("shopping", route)]
  }

  /** The `auth` policies of the default pipeline: `auth-catalog` alone. */
  lemma DefaultAuthPolicies()
    ensures MatchedPolicies(Fixture.policies, DefaultPipeline) == [AuthCatalog]
  {
    var qs, p := Fixture.policies, DefaultPipeline;
    assert p.policyIds[0] == "auth-catalog";
    assert qs[..2][..1] == qs[..1] == [AuthCatalog];
    assert qs[..1][..0] == [];
    assert MatchedPolicies(qs[..1], p) == [AuthCatalog];
    assert MatchedPolicies(qs[..2], p) == [AuthCatalog];
  }

  lemma DefaultPipelineEntries(m: Mapping)
    requires m.pipelineId == Some("default-pipeline")
    ensures MappingEntries(m, Fixture.pipelines, Fixture.policies) == Both(RouteOf(m))
  {
    var ps, qs := Fixture.pipelines, Fixture.policies;
    assert ps[..0] == [];
    assert MatchedPipelines(ps, m) == [DefaultPipeline];
    DefaultAuthPolicies();
    assert [AuthCatalog][..0] == [];
    var es := ScopeEntries(["catalog", "shopping"], RouteOf(m));
    assert es == Both(RouteOf(m)) by {
      assert |es| == 2 && es[0] == Entry("catalog", RouteOf(m)) && es[1] == Entry("shopping", RouteOf(m));
    }
    assert PolicyEntries(AuthCatalog, RouteOf(m)) == es;
    assert PoliciesEntries([AuthCatalog], RouteOf(m)) == es;
    assert [DefaultPipeline][..0] == [];
    assert PipelinesEntries([DefaultPipeline], qs, RouteOf(m)) == es;
  }

  /** A mapping whose pipeline does not exist contributes nothing. */
  lemma OrderEntries()
    ensures MappingEntries(OrderMapping, Fixture.pipelines, Fixture.policies) == []
  {
    assert Fixture.pipelines[..0] == [];
    assert MatchedPipelines(Fixture.pipelines, OrderMapping) == [];
  }

  lemma ContributionsSnoc(ms: seq<Mapping>, m: Mapping, ps: seq<Pipeline>, qs: seq<Policy>)
    ensures Contributions(ms + [m], ps, qs) == Contributions(ms, ps, qs) + MappingEntries(m, ps, qs)
  {
    assert (ms + [m])[..|ms|] == ms;
  }

  lemma MappingsInOrder()
    ensures Fixture.mappings == [] + [CatalogMapping] + [InvoiceMapping] + [OrderMapping]
  {
  }

  /** What `buildScopes` appends on this configuration, in order: `order`,
      whose pipeline does not exist, contributes nothing. */
  lemma FixtureContributions()
    ensures Contributions(Fixture.mappings, Fixture.pipelines, Fixture.policies) ==
      Both(RouteOf(CatalogMapping)) + Both(RouteOf(InvoiceMapping))
  {
    MappingsInOrder();
    DefaultPipelineEntries(CatalogMapping);
    DefaultPipelineEntries(InvoiceMapping);
    OrderEntries();
    ThreeMappings(Fixture.mappings, Fixture.pipelines, Fixture.policies);
  }

  lemma ThreeMappings(ms: seq<Mapping>, ps: seq<Pipeline>, qs: seq<Policy>)
    requires ms == [] + [CatalogMapping] + [InvoiceMapping] + [OrderMapping]
    requires MappingEntries(CatalogMapping, ps, qs) == Both(RouteOf(CatalogMapping))
    requires MappingEntries(InvoiceMapping, ps, qs) == Both(RouteOf(InvoiceMapping))
    requires MappingEntries(OrderMapping, ps, qs) == []
    ensures Contributions(ms, ps, qs) == Both(RouteOf(CatalogMapping)) + Both(RouteOf(InvoiceMapping))
  {
    var ms1 := [] + [CatalogMapping];
    var ms2 := ms1 + [InvoiceMapping];
    ContributionsSnoc([], CatalogMapping, ps, qs);
    ContributionsSnoc(ms1, InvoiceMapping, ps, qs);
    ContributionsSnoc(ms2, OrderMapping, ps, qs);
  }

  /** Two routes, each filed under the same two distinct scopes. */
  lemma ExtendTwoByTwo(s1: string, s2: string, r1: Route, r2: Route)
    requires s1 != s2
    ensures Extend(map[], [Entry(s1, r1), Entry(s2, r1), Entry(s1, r2), Entry(s2, r2)]) == map[s1 := [r1, r2], s2 := [r1, r2]]
  {
    var es := [Entry(s1, r1), Entry(s2, r1), Entry(s1, r2), Entry(s2, r2)];
    assert es[..3] == [Entry(s1, r1), Entry(s2, r1), Entry(s1, r2)];
    assert es[..3][..2] == [Entry(s1, r1), Entry(s2, r1)];
    assert es[..3][..2][..1] == [Entry(s1, r1)];
    assert es[..3][..2][..1][..0] == [];
    var m0: ScopeMap := map[];
    var m1 := Add(m0, Entry(s1, r1));
    var m2 := Add(m1, Entry(s2, r1));
    var m3 := Add(m2, Entry(s1, r2));
    var m4 := Add(m3, Entry(s2, r2));
    assert Extend(m0, es[..3][..2][..1]) == m1;
    assert Extend(m0, es[..3][..2]) == m2;
    assert Extend(m0, es[..3]) == m3;
    assert Extend(m0, es) == m4;
    assert Lookup(m0, s1) + [r1] == [r1];
    assert m1 == map[s1 := [r1]];
    assert Lookup(m1, s2) + [r1] == [r1];
    assert m2 == map[s1 := [r1], s2 := [r1]];
    assert Lookup(m2, s1) + [r2] == [r1, r2];
    assert m3 == map[s1 := [r1, r2], s2 := [r1]];
    assert Lookup(m3, s2) + [r2] == [r1, r2];
  }

  /** Listing scopes, both over the lists and through the include. */
  lemma ListScopes()
    ensures ScopeIndex(Fixture.mappings, Fixture.pipelines, Fixture.policies) == ExpectedScopes
    ensures Extend(map[], JoinedEntries(Include(Fixture.mappings, Fixture.pipelines, Fixture.policies))) == ExpectedScopes
  {
    var r1, r2 := RouteOf(CatalogMapping), RouteOf(InvoiceMapping);
    FixtureContributions();
    ExtendTwoByTwo("catalog", "shopping", r1, r2);
    assert Both(r1) + Both(r2) == [Entry("catalog", r1), Entry("shopping", r1), Entry("catalog", r2), Entry("shopping", r2)];
    assert r1 == Route("GET", "/api/catalog") && r2 == Route("ALL", "/api/invoices");
    assert UniqueIds([DefaultPipeline]);
    IncludeFoldAgrees(Fixture.mappings, Fixture.pipelines, Fixture.policies);
  }

  /** Renaming `auth-catalog` to `auth-catalog-1`: the pipeline now lists the new id. */
  lemma RenameAuthCatalog()
    ensures var r := Policies.Rename(Fixture, "auth-catalog", "auth-catalog-1");
      && r.0 == Ok(AuthCatalog.(name := "auth-catalog-1", id := "auth-catalog-1"))
      && |r.1.pipelines| == 1
      && r.1.pipelines[0].policyIds == ["auth-catalog-1", "rate-limiter-per-minute", "proxy-to-catalog"]
  {
    var r := Policies.Rename(Fixture, "auth-catalog", "auth-catalog-1");
    assert Policies.FindPipelineRefs(Fixture, "auth-catalog").value.policy == 0;
    Policies.RenameRewritesReferences(Fixture, "auth-catalog", "auth-catalog-1");
    assert DefaultPipeline.policyIds[0] == "auth-catalog";
  }

  /** Renaming `default-pipeline`: the two mappings that used it follow it;
      the `order` mapping keeps its (dangling) pipeline id. */
  lemma RenameDefaultPipeline()
    ensures Pipelines.PipelineNamed(Fixture, "default-pipeline")
    ensures var r := Pipelines.Rename(Fixture, "default-pipeline", "default-pipeline-1");
      && r.0.Ok? && r.0.value.id == "default-pipeline-1"
      && r.1.mappings == [CatalogMapping.(pipelineId := Some("default-pipeline-1")),
                          InvoiceMapping.(pipelineId := Some("default-pipeline-1")),
                          OrderMapping]
  {
    assert Fixture.pipelines[0].name == "default-pipeline";
    Pipelines.RenameRepointsMappings(Fixture, "default-pipeline", "default-pipeline-1");
  }

  /** Force-deleting `auth-catalog` succeeds and detaches it from the pipeline. */
  lemma ForceDeleteAuthCatalog()
    ensures var r := Policies.DeleteByName(Fixture, "auth-catalog", Some(true));
      && r.0 == Ok(true)
      && r.1.policies == [RateLimiter, Proxy]
      && r.1.pipelines == [DefaultPipeline.(policyIds := ["rate-limiter-per-minute", "proxy-to-catalog"])]
  {
    DetachAuthCatalog(DefaultPipeline.policyIds);
    assert Policies.FindPipelineRefs(Fixture, "auth-catalog").value.policy == 0;
  }

  /** Detaching the first of three distinct ids leaves the other two, in order. */
  lemma DetachAuthCatalog(ids: seq<string>)
    requires ids == ["auth-catalog", "rate-limiter-per-minute", "proxy-to-catalog"]
    ensures Policies.Without(ids, "auth-catalog") == ["rate-limiter-per-minute", "proxy-to-catalog"]
  {
    var first, second := ids[..1], ids[..2];
    assert second[..1] == first && first[..0] == [];
    assert Policies.Without(first, "auth-catalog") == [];
    assert Policies.Without(second, "auth-catalog") == ["rate-limiter-per-minute"];
  }

  /** Deleting `auth-catalog` without `force` fails with 400 while the pipeline lists it. */
  lemma DeleteInUseAuthCatalog()
    ensures Policies.DeleteByName(Fixture, "auth-catalog", Some(false)) == (InUse, Fixture)
  {
    assert Fixture.policies[0].name == "auth-catalog";
    assert "auth-catalog" in Fixture.pipelines[0].policyIds;
    Policies.DeleteInUse(Fixture, "auth-catalog", Some(false));
  }

  /** Deleting an unknown policy fails with 404 and changes nothing. */
  lemma DeleteUnknownPolicy()
    ensures Policies.DeleteByName(Fixture, "auth-catalog-xx", Some(false)) == (NotFound, Fixture)
  {
    Policies.DeleteNotFound(Fixture, "auth-catalog-xx", Some(false));
  }
}
