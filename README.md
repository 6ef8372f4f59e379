# gateway-workspace: referential integrity and scope aggregation, in Dafny

This project models two parts of the gateway workspace.

The workspace stores three kinds of record. A **policy** has an id, a name, a type and, for `auth`
policies, a list of scopes. A **pipeline** is an ordered chain of policy ids. A **gateway
mapping** (also called a gateway map) binds a verb and an endpoint to a pipeline id.

1. **The referential-integrity engine.** This covers three operations:
   - renaming a policy, which rewrites the old id in every pipeline that lists it;
   - deleting a policy by name, which answers 404 for an unknown name and 400 for a policy in use
     unless `force` is set, and otherwise detaches the policy from every pipeline;
   - renaming a pipeline, which repoints every mapping that used it.

   A record's id is its name, or its id when the name is empty (`name || id`).
2. **The scope aggregator.** `buildScopes` and the fold inside `getAuthScopes` / `getScopes` follow
   each mapping to its pipeline (by id), then to the pipeline's `auth` policies. They file the
   mapping's route under every scope those policies declare. The result is a dictionary from scope
   name to a list of routes.

Layout (one module per file):

- `entities.dfy` (`Entities`): the records, `name || id`, `findOne` by name, and the outcome of a
  rename or delete together with its status code.
- `policies.dfy` (`Policies`): `findPipelineRefs`. `Rename` and `DeleteByName` are functions
  from the configuration before to the outcome and the configuration after. The lemmas state the
  outcomes, the effects and the preservation of referential integrity. `ReplaceAll` is the
  in-place loop over one pipeline's `policyIds`.
- `pipelines.dfy` (`Pipelines`): `findMapRefs` and `Rename`, with their lemmas.
- `store.dfy` (`Store`): class `Workspace` holds the three collections as fields. Its methods
  update those fields in place, one referencing record after another. Each method is proved to
  produce exactly the outcome and the state given by the matching function above.
- `scopes.dfy` (`Scopes`): the shared specification of `buildScopes`. `ScopeIndex` folds the
  appended entries into a map. `ExpectedRoutes` is a counting description over the same two
  filters, proved equal to `ScopeIndex`. The lemmas cover soundness, completeness, order, multiplicity and
  agreement of the include-based fold. The file also has the loop methods for the inner loops.
- `gateway_mapping.dfy` (`GatewayMapping`) and `gateway_map.dfy` (`GatewayMap`): the two copies
  of `buildScopes` and of the scope fold. Both copies are proved to compute the same
  specification, so they agree on every input.
- `fixture.dfy` (`PolicyConfigFixture`): the configuration of the policy-config test suite. Its
  lemmas state each expectation of that suite.

All operations are functions or methods on values. Given the same inputs they give the same
result, and they do not change their inputs. The in-place store methods say exactly what they
change.

## Model

| member | source | states |
|---|---|---|
| Entities.NameOrId | common/models/policy.js:9-11 | `name \|\| id` on strings: the name when it is non-empty, the id otherwise |
| Entities.Policy.UniqueId | common/models/policy.js:9-11 | a policy's id after a save is its name, or its old id when the name is empty |
| Entities.Pipeline.UniqueId | common/models/pipeline.js:4-6 | the same rule for pipelines |
| Entities.Mapping.UniqueId | common/models/gateway-mapping.js:5-7 | the same rule for gateway mappings (gateway-map.js:2-4 is identical) |
| Entities.Outcome.StatusCode | common/models/policy.js:103-117 | "not found" carries status 404 and "in use" carries status 400 |
| Entities.FirstIndex | common/models/policy.js:19 | `findOne` by name: the first record in store order with that name; no answer exactly when no record has it |
| Policies.ReferencingPipelines | common/models/policy.js:22-26 | increasing positions, exactly the pipelines whose `policyIds` contain the id |
| Policies.FindPipelineRefs | common/models/policy.js:18-29 | no answer exactly when no policy has the name; otherwise the first policy with that name, and exactly the pipelines that list its id, in store order |
| Policies.ReplaceAll | common/models/policy.js:51-56 | every occurrence of the old id in the array is overwritten with the new one; other slots are unchanged |
| Policies.Without | common/models/policy.js:119-122 | removing the id keeps exactly the other ids, never adds any, and changes nothing when the id is absent |
| Policies.WithoutCounts | common/models/policy.js:119-122 | removing the id drops every copy of it and keeps every other id exactly as often as it was listed |
| Policies.WithoutAppend | common/models/policy.js:119-122 | removal works piecewise over a concatenation, so the ids that stay keep their order in the chain |
| Policies.Rename | common/models/policy.js:38-64 | `Policy.rename` answers either the renamed policy, which carries the new name, or `false`. It never answers an error. `false` leaves the configuration unchanged. The policy and pipeline counts stay the same, and the mappings are untouched |
| Policies.DeleteByName | common/models/policy.js:96-130 | `Policy.deleteByName` answers `true`, 404 or 400. An error leaves the configuration unchanged. `true` removes exactly one policy, keeps the pipeline count and leaves the mappings untouched |
| Policies.RenameOutcome | common/models/policy.js:38-45 | rename answers `false` (and changes nothing) exactly when the names are equal or no policy has the current name; it never answers an error |
| Policies.RenameRewritesReferences | common/models/policy.js:46-60 | a successful rename renames the first policy with that name, with id `name \|\| id`. It overwrites the old id with the new name at every position of every pipeline. Ids, names and lengths stay the same. Pipelines that do not list the old id are untouched, as are the mappings. No pipeline lists the old id afterwards |
| Policies.RenamePreservesIntegrity | common/models/policy.js:46-57 | with a non-empty new name, a rename keeps every pipeline reference pointing at an existing policy |
| Policies.DeleteNotFound | common/models/policy.js:101-109 | deleting an unknown name fails with 404 and changes nothing |
| Policies.DeleteInUse | common/models/policy.js:110-117 | without `force`, deleting a policy that some pipeline lists fails with 400 and changes nothing |
| Policies.DeleteDefaultsToNoForce | common/models/policy.js:97-100 | leaving `force` out behaves exactly as `force` false |
| Policies.DeleteSucceedsIff | common/models/policy.js:110-118 | deleting an existing policy succeeds exactly when `force` is set or no pipeline lists it |
| Policies.DeleteDetaches | common/models/policy.js:119-127 | a successful delete answers `true` and removes the first policy with that name. It removes exactly that id from every pipeline and keeps pipeline ids, names and the mappings |
| Policies.StripRefsDetaches | common/models/policy.js:119-122 | detaching changes only `policyIds`, and leaves no pipeline listing the id |
| Policies.DeletePreservesIntegrity | common/models/policy.js:96-130 | a delete never leaves a pipeline listing the id of a policy that no longer exists |
| Pipelines.MappingsReferencing | common/models/pipeline.js:17 | increasing positions, exactly the mappings whose `pipelineId` is the id |
| Pipelines.FindMapRefs | common/models/pipeline.js:13-23 | the first pipeline with that name, and exactly the mappings that point at its id, in store order |
| Pipelines.Rename | common/models/pipeline.js:32-52 | `Pipeline.rename` answers `false` exactly when the two names are equal, and then changes nothing. Otherwise it answers the renamed pipeline, which carries the new name. It never answers an error. Policies are untouched, and the pipeline and mapping counts stay the same |
| Pipelines.RenameSameName | common/models/pipeline.js:33-37 | renaming a pipeline to its own name answers `false` and changes nothing |
| Pipelines.RenameRepointsMappings | common/models/pipeline.js:38-51 | a rename renames the first pipeline with that name, with id `name \|\| id` and its policy chain unchanged. Every mapping on the old id moves to the new id; every other mapping, every policy and every other pipeline stays as it was |
| Pipelines.RenamePreservesIntegrity | common/models/pipeline.js:32-52 | a rename keeps every mapping that names a pipeline pointing at an existing pipeline |
| Store.RewriteReferencing | common/models/policy.js:50-57 | the loop over the referencing pipelines, rewriting each one in place through `ReplaceAll`, gives exactly the rewritten pipeline list |
| Store.StripReferencing | common/models/policy.js:119-122 | the loop over the referencing pipelines, detaching the id from each one, gives exactly the detached pipeline list |
| Store.RepointReferencing | common/models/pipeline.js:44-46 | the loop over the referencing mappings, updating each one's `pipelineId`, gives exactly the repointed mapping list |
| Store.Workspace.RenamePolicy | common/models/policy.js:38-64 | the store after the in-place rename, and its answer, are exactly those of `Policies.Rename` |
| Store.Workspace.DeletePolicyByName | common/models/policy.js:96-130 | the store after the in-place delete, and its answer, are exactly those of `Policies.DeleteByName` |
| Store.Workspace.RenamePipeline | common/models/pipeline.js:32-52 | the store after the in-place rename, and its answer, are exactly those of `Pipelines.Rename` |
| Scopes.ExtendLookup | common/models/gateway-mapping.js:53-58 | applying entries appends, under each scope, exactly the routes of the entries filed there; a key exists exactly when some entry uses it |
| Scopes.ExtendAppend | common/models/gateway-mapping.js:41-63 | applying two runs of entries equals applying them one after the other |
| Scopes.MatchedPipelines | common/models/gateway-mapping.js:42-44 | the filter keeps exactly the pipelines whose id is the mapping's `pipelineId`; how often and in which order is stated by `MatchedPipelinesAppend` |
| Scopes.MatchedPipelinesAppend | common/models/gateway-mapping.js:42-44 | the filter works piecewise over a concatenation, so each matching pipeline is kept once, in array order, with no de-duplication |
| Scopes.MatchedPolicies | common/models/gateway-mapping.js:46-49 | the policies filter returns at most as many policies as the list holds; what it keeps, and in which order, is stated by the next two lemmas |
| Scopes.MatchedPoliciesAppend | common/models/gateway-mapping.js:46-49 | the filter works piecewise, so the kept policies stay in policies-list order and not in `policyIds` order |
| Scopes.MatchedPoliciesMember | common/models/gateway-mapping.js:46-49 | the filter keeps exactly the `auth` policies whose id the pipeline lists |
| Scopes.SelectScopeEntries | common/models/gateway-mapping.js:52-59 | one policy files the route under `s` once per occurrence of `s` in its scopes |
| Scopes.SelectPolicies | common/models/gateway-mapping.js:50-61 | the matched policies file the route under `s` as many times as they list `s`, together |
| Scopes.SelectPipelines | common/models/gateway-mapping.js:45-62 | the matched pipelines add their policies' counts together |
| Scopes.SelectContributions | common/models/gateway-mapping.js:41-63 | the routes appended under `s` over all mappings are exactly the expected routes |
| Scopes.ScopeIndexExact | common/models/gateway-mapping.js:39-65 | under each scope, `buildScopes` files exactly the expected routes: each mapping's route as many times as the join reaches the scope, in mapping order, without de-duplication. The scope is a key exactly when that list is non-empty |
| Scopes.ScopeIndex | common/models/gateway-mapping.js:39-65 | the dictionary `buildScopes` returns: the appended entries, folded in order. A key is created only together with its first route, so every key holds a non-empty list |
| Scopes.ExtendKeepsNonEmpty | common/models/gateway-mapping.js:53-58 | applying entries never leaves an empty list under a key |
| Scopes.ScopeIndexMappingOrder | common/models/gateway-mapping.js:41-63 | under every scope, the routes of earlier mappings come before those of later mappings |
| Scopes.OccurrencesPositive | common/models/gateway-mapping.js:51-52 | a policy files a route under `s` exactly when it lists `s` |
| Scopes.PolicyCountPositive | common/models/gateway-mapping.js:50-52 | a list of policies files a route under `s` exactly when one of them lists `s` |
| Scopes.MultiplicityPositive | common/models/gateway-mapping.js:41-59 | a mapping is filed under `s` exactly when the join reaches `s` from it: a pipeline with its id, listing an `auth` policy whose scopes hold `s` |
| Scopes.ScopeIndexSound | common/models/gateway-mapping.js:39-65 | every route under a scope is the route of a mapping from which the join reaches that scope |
| Scopes.ScopeIndexComplete | common/models/gateway-mapping.js:39-65 | every mapping from which the join reaches a scope has its route under that scope |
| Scopes.ScopeIndexEmptyWhenUnreachable | common/models/gateway-mapping.js:39-65 | when the join reaches no scope, the result is the empty dictionary |
| Scopes.AppendScopeRoutes | common/models/gateway-mapping.js:52-59 | the loop over one policy's scopes applies exactly that policy's entries |
| Scopes.AppendPolicyRoutes | common/models/gateway-mapping.js:50-61 | the loop over the matched policies applies exactly their entries; policies without scopes add nothing |
| Scopes.AppendMappingRoutes | common/models/gateway-mapping.js:42-62 | the body for one mapping applies exactly that mapping's entries |
| Scopes.NoMatch | common/models/gateway-mapping.js:42-44 | a mapping whose pipeline id matches no pipeline matches nothing |
| Scopes.AtMostOneMatch | common/models/gateway-mapping.js:42-44 | with unique pipeline ids, a mapping matches at most one pipeline |
| Scopes.Join | common/models/gateway-mapping.js:116-127 | the include for one mapping keeps its verb and endpoint. It has no pipeline exactly when no pipeline has the mapping's `pipelineId`. A resolved pipeline always carries a (possibly empty) policy list; which policies it holds is stated by `JoinPolicies` |
| Scopes.JoinPolicies | common/models/gateway-mapping.js:116-127 | a resolved pipeline is the first pipeline with the mapping's id. Its policy list is the policies filter for that pipeline: exactly the `auth` policies it lists, in policies-list order |
| Scopes.Include | common/models/gateway-mapping.js:116-127 | the include returns one joined mapping per mapping, in store order, with that mapping's verb and endpoint |
| Scopes.JoinAgrees | common/models/gateway-mapping.js:113-147 | with unique pipeline ids, the include for one mapping gives exactly the entries of the nested filters |
| Scopes.JoinedEntriesAgree | common/models/gateway-mapping.js:129-148 | with unique pipeline ids, the entries of the fold over the included mappings equal those of `buildScopes` |
| Scopes.IncludeFoldAgrees | common/models/gateway-mapping.js:113-149 | with unique pipeline ids, the result of `getAuthScopes` equals that of `buildScopes` on the same lists |
| GatewayMapping.BuildScopes | common/models/gateway-mapping.js:39-65 | the nested loops compute exactly `ScopeIndex` |
| GatewayMapping.GetAuthScopes | common/models/gateway-mapping.js:129-149 | the fold over the included mappings computes exactly the fold of their entries; mappings without a pipeline or without policies add nothing |
| GatewayMap.BuildScopes | common/models/gateway-map.js:13-39 | the same loops compute the same `ScopeIndex`, so this equals `GatewayMapping.BuildScopes` on every input |
| GatewayMap.GetScopes | common/models/gateway-map.js:100-120 | the same fold as `getAuthScopes`, with the same result |
| PolicyConfigFixture.DefaultAuthPolicies | test/policy-config.js:78-114 | in the suite's configuration, `auth-catalog` is the only `auth` policy of the default pipeline |
| PolicyConfigFixture.FixtureContributions | test/policy-config.js:123-147 | `catalog` and `invoice` each file their route under both scopes; `order`, whose pipeline does not exist, files nothing |
| PolicyConfigFixture.ListScopes | test/policy-config.js:198-210 | listing scopes gives `catalog` and `shopping`, each with GET /api/catalog then ALL /api/invoices, both from `buildScopes` and from the include-based fold |
| PolicyConfigFixture.RenameAuthCatalog | test/policy-config.js:212-221 | renaming `auth-catalog` to `auth-catalog-1` succeeds, and the single pipeline lists `auth-catalog-1` in its place |
| PolicyConfigFixture.RenameDefaultPipeline | test/policy-config.js:223-237 | renaming `default-pipeline` moves both mappings that used it to `default-pipeline-1` and leaves `order` alone; there are still three mappings |
| PolicyConfigFixture.ForceDeleteAuthCatalog | test/policy-config.js:239-249 | force-deleting `auth-catalog` answers `true`, and the single pipeline no longer lists it |
| PolicyConfigFixture.DeleteInUseAuthCatalog | test/policy-config.js:251-261 | deleting `auth-catalog` without force fails with 400, and the pipeline still lists it |
| PolicyConfigFixture.DeleteUnknownPolicy | test/policy-config.js:263-273 | deleting `auth-catalog-xx` fails with 404 and changes nothing |

## Left out

- Persistence is not modelled: the loading, caching, serialising and deserialising of
  `policy-config.json`, and the `remoteMethod` declarations. They are I/O and REST wiring.
- Errors that come back from the data source (`err` in every callback) are not modelled. Each
  store call is assumed to succeed.
- Concurrency and partial failure are not modelled. `async.each` issues its updates concurrently
  and may stop after a failed update, leaving some pipelines or mappings updated and others not.
  The store methods apply the updates one after another, all of them.
- The ORM's `findOne`, `find({where})`, `updateAttributes`, `destroy` and the `policies` relation
  are modelled by their effect on in-memory lists in store order. This includes `include` with a
  scoped relation in `getAuthScopes`.
- `p.policies.remove(policy)` is modelled as removing every occurrence of the policy's id from
  `policyIds`.
- Scope names are strings, and the dictionary is a Dafny map. JavaScript's inherited object keys,
  such as `constructor` and `__proto__`, which would make `scopes[s]` truthy before any push, are
  not modelled.
- A Dafny map has no key order, so the order of the keys of the JavaScript `scopes` object is not
  modelled. That order is insertion order, with integer-like keys first. Only the route lists
  under each key are ordered here, and no code here depends on the key order.
- Scopes.IncludeFoldAgrees: requires unique pipeline ids. The include resolves a mapping to one
  pipeline, while the `filter` in `buildScopes` visits every pipeline with that id. The include's
  pipeline is taken to be the first with that id, and its policies are taken in policies-list
  order.
- Policies.RenameOutcome: renaming an unknown policy answers `false` (the `NoOp` outcome) and
  does not fail with 404. This follows the code (`cb(err, false)` with no error). The test titled
  "should report error if policy to be renamed not found" (test/policy-config.js:263) exercises
  `deleteByName`, not `rename`.
- Policies.RenamePreservesIntegrity: requires a non-empty new name. The rename writes `newName`
  into the pipelines, while the policy's new id is `newName || id`. The two differ only for an
  empty name, which then leaves the pipelines referencing the empty string, an id no policy has.
  The model's validation, which may reject an empty name before the rename runs, is not part of
  this model, so this is not claimed as a defect. `Policies.RenameRewritesReferences` states the
  empty-name behaviour exactly.
- Pipelines.FindMapRefs: requires that a pipeline with that name exists. The code reads
  `pipeline.id` without checking the lookup, so an unknown name throws inside the callback. No
  outcome for that case is modelled.
- Pipelines.Rename and Store.Workspace.RenamePipeline carry the same requirement, for the same
  reason.
- `Pipeline.deleteByName` and `GatewayMapping.rename` are not modelled, although the suite calls
  them (test/policy-config.js:162-180, 275-320). Neither common/models/pipeline.js nor
  common/models/gateway-mapping.js defines them.
- Renaming to a name that another record already has is not checked; the model does exactly what
  the code does. Unique names and ids are assumed only where stated (`UniqueIds`).
- The suite creates its three policies concurrently, so their order in the store is not fixed.
  It also attaches them to the pipeline with concurrent `pipeline.policies.add` calls
  (test/policy-config.js:109-111), so the order of the pipeline's `policyIds` is not fixed
  either. The fixture fixes one order for both: `auth-catalog`, `rate-limiter-per-minute`,
  `proxy-to-catalog`. `RenameAuthCatalog` and `ForceDeleteAuthCatalog` state exact `policyIds`
  lists for that order, while the suite itself only checks `contain` / `not.contain`. With a
  single `auth` policy in the suite's configuration, the scope expectations do not depend on
  either order.
- Scopes.MatchedPolicies: its own contract only bounds the length of the result. Its membership
  and order properties are the lemmas `MatchedPoliciesMember` and `MatchedPoliciesAppend`, kept
  apart so that proofs mentioning the filter stay small.
- Scopes.MatchedPipelines: its own contract gives membership only. How often and in which order
  it keeps matching pipelines is the lemma `MatchedPipelinesAppend`, for the same reason.
