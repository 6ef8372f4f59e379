/** `GatewayMapping`: `buildScopes` over in-memory lists, and the fold of
    `getAuthScopes` over mappings joined with their pipeline and its `auth`
    policies. */
module GatewayMapping {
  import opened Entities
  import opened Scopes

  /** `GatewayMapping.buildScopes`: for each mapping, each pipeline with its
      id, each `auth` policy that pipeline lists, each of its scopes, append
      the mapping's verb and endpoint under that scope. */
  method BuildScopes(mappings: seq<Mapping>, pipelines: seq<Pipeline>, policies: seq<Policy>)
    returns (scopes: ScopeMap)
    ensures scopes == ScopeIndex(mappings, pipelines, policies)
  {
    scopes := map[];
    var k := 0;
    while k < |mappings|
      invariant 0 <= k <= |mappings|
      invariant scopes == ScopeIndex(mappings[..k], pipelines, policies)
    {
      assert mappings[..k + 1][..k] == mappings[..k];
      ExtendAppend(map[], Contributions(mappings[..k], pipelines, policies), MappingEntries(mappings[k], pipelines, policies));
      scopes := AppendMappingRoutes(scopes, mappings[k], pipelines, policies);
      k := k + 1;
    }
    assert mappings[..k] == mappings;
  }

  /** The callback of `getAuthScopes`: mappings without a resolved pipeline,
      or whose pipeline has no policies, add nothing; otherwise each policy's
      scopes receive the mapping's route. */
  method GetAuthScopes(mappings: seq<JoinedMapping>) returns (scopes: ScopeMap)
    ensures scopes == Extend(map[], JoinedEntries(mappings))
  {
    scopes := map[];
    var k := 0;
    while k < |mappings|
      invariant 0 <= k <= |mappings|
      invariant scopes == Extend(map[], JoinedEntries(mappings[..k]))
    {
      var mapping := mappings[k];
      assert mappings[..k + 1][..k] == mappings[..k];
      assert JoinedEntries(mappings[..k + 1]) == JoinedEntries(mappings[..k]) + JoinedOne(mapping);
      ExtendAppend(map[], JoinedEntries(mappings[..k]), JoinedOne(mapping));
      if mapping.pipeline.Some? {
        if mapping.pipeline.value.policies.Some? {
          scopes := AppendPolicyRoutes(scopes, mapping.pipeline.value.policies.value, Route(mapping.verb, mapping.endpoint));
        }
      }
      k := k + 1;
    }
    assert mappings[..k] == mappings;
  }
}
