/** `GatewayMap`, the gateway mapping under its other name: `buildScopes` over
    in-memory lists, and the fold of `getScopes` over maps joined with their
    pipeline and its `auth` policies. Both compute exactly what the
    GatewayMapping versions compute. */
module GatewayMap {
  import opened Entities
  import opened Scopes

  /** `GatewayMap.buildScopes`, the same loops as `GatewayMapping.buildScopes`. */
  method BuildScopes(maps: seq<Mapping>, pipelines: seq<Pipeline>, policies: seq<Policy>)
    returns (scopes: ScopeMap)
    ensures scopes == ScopeIndex(maps, pipelines, policies)
  {
    scopes := map[];
    var k := 0;
    while k < |maps|
      invariant 0 <= k <= |maps|
      invariant scopes == ScopeIndex(maps[..k], pipelines, policies)
    {
      assert maps[..k + 1][..k] == maps[..k];
      ExtendAppend(map[], Contributions(maps[..k], pipelines, policies), MappingEntries(maps[k], pipelines, policies));
      scopes := AppendMappingRoutes(scopes, maps[k], pipelines, policies);
      k := k + 1;
    }
    assert maps[..k] == maps;
  }

  /** The callback of `getScopes`: maps without a resolved pipeline, or whose
      pipeline has no policies, add nothing; otherwise each policy's scopes
      receive the map's route. */
  method GetScopes(maps: seq<JoinedMapping>) returns (scopes: ScopeMap)
    ensures scopes == Extend(map[], JoinedEntries(maps))
  {
    scopes := map[];
    var k := 0;
    while k < |maps|
      invariant 0 <= k <= |maps|
      invariant scopes == Extend(map[], JoinedEntries(maps[..k]))
    {
      var m := maps[k];
      assert maps[..k + 1][..k] == maps[..k];
      assert JoinedEntries(maps[..k + 1]) == JoinedEntries(maps[..k]) + JoinedOne(m);
      ExtendAppend(map[], JoinedEntries(maps[..k]), JoinedOne(m));
      if m.pipeline.Some? {
        if m.pipeline.value.policies.Some? {
          scopes := AppendPolicyRoutes(scopes, m.pipeline.value.policies.value, Route(m.verb, m.endpoint));
        }
      }
      k := k + 1;
    }
    assert maps[..k] == maps;
  }
}
