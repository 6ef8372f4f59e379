/** The workspace's entity store: the three collections as fields that the
    rename and delete operations update in place. Each operation is proved to
    leave the store in exactly the state, and to answer exactly the outcome,
    that the corresponding function of Policies or Pipelines gives. */
module Store {
  import opened Entities
  import Policies
  import Pipelines

  /** The positions `at` are in range, each listed once, and are exactly the
      positions at which `has` holds. */
  ghost predicate Exactly<T>(xs: seq<T>, at: seq<nat>, has: T -> bool)
  {
    && (forall k :: 0 <= k < |at| ==> at[k] < |xs|)
    && (forall k, l :: 0 <= k < l < |at| ==> at[k] != at[l])
    && (forall t :: 0 <= t < |xs| ==> (t in at <==> has(xs[t])))
  }

  /** The loop of `Policy.rename` over the referencing pipelines: in each,
      overwrite the old id in place. */
  method RewriteReferencing(ps: seq<Pipeline>, at: seq<nat>, oldId: string, newId: string) returns (r: seq<Pipeline>)
    requires Exactly(ps, at, (p: Pipeline) => oldId in p.policyIds)
    ensures r == Policies.RewriteRefs(ps, oldId, newId)
  {
    r := ps;
    var k := 0;
    while k < |at|
      invariant 0 <= k <= |at|
      invariant |r| == |ps|
      invariant forall t :: 0 <= t < |ps| ==>
        r[t] == if t in at[..k] then ps[t].(policyIds := Policies.Replaced(ps[t].policyIds, oldId, newId)) else ps[t]
    {
      var t := at[k];
      assert t !in at[..k];
      var ids := r[t].policyIds;
      var a := new string[|ids|](j requires 0 <= j < |ids| => ids[j]);
      Policies.ReplaceAll(a, oldId, newId);
      r := r[t := r[t].(policyIds := a[..])];
      assert at[..k + 1] == at[..k] + [t];
      k := k + 1;
    }
    assert at[..k] == at;
  }

  /** The loop of `Policy.deleteByName` over the referencing pipelines:
      detach the id from each. */
  method StripReferencing(ps: seq<Pipeline>, at: seq<nat>, id: string) returns (r: seq<Pipeline>)
    requires Exactly(ps, at, (p: Pipeline) => id in p.policyIds)
    ensures r == Policies.StripRefs(ps, id)
  {
    r := ps;
    var k := 0;
    while k < |at|
      invariant 0 <= k <= |at|
      invariant |r| == |ps|
      invariant forall t :: 0 <= t < |ps| ==>
        r[t] == if t in at[..k] then ps[t].(policyIds := Policies.Without(ps[t].policyIds, id)) else ps[t]
    {
      var t := at[k];
      assert t !in at[..k];
      r := r[t := r[t].(policyIds := Policies.Without(r[t].policyIds, id))];
      assert at[..k + 1] == at[..k] + [t];
      k := k + 1;
    }
    assert at[..k] == at;
  }

  /** The loop of `Pipeline.rename` over the referencing mappings: point
      each at the new id. */
  method RepointReferencing(ms: seq<Mapping>, at: seq<nat>, oldId: string, newId: string) returns (r: seq<Mapping>)
    requires Exactly(ms, at, (m: Mapping) => m.pipelineId == Some(oldId))
    ensures r == Pipelines.Repoint(ms, oldId, newId)
  {
    r := ms;
    var k := 0;
    while k < |at|
      invariant 0 <= k <= |at|
      invariant |r| == |ms|
      invariant forall t :: 0 <= t < |ms| ==>
        r[t] == if t in at[..k] then ms[t].(pipelineId := Some(newId)) else ms[t]
    {
      var t := at[k];
      assert t !in at[..k];
      r := r[t := r[t].(pipelineId := Some(newId))];
      assert at[..k + 1] == at[..k] + [t];
      k := k + 1;
    }
    assert at[..k] == at;
  }

  class Workspace {
    var policies: seq<Policy>
    var pipelines: seq<Pipeline>
    var mappings: seq<Mapping>

    /** The store's content as a configuration value. */
    function State(): Config
      reads this
    {
      Config(policies, pipelines, mappings)
    }

    constructor (c: Config)
      ensures State() == c
    {
      policies, pipelines, mappings := c.policies, c.pipelines, c.mappings;
    }

    /** `Policy.rename`: update the policy's name and id, then rewrite the old
        id in each referencing pipeline's `policyIds`, one pipeline after the
        other. */
    method RenamePolicy(currentName: string, newName: string) returns (r: Outcome<Policy>)
      modifies this
      ensures (r, State()) == Policies.Rename(old(State()), currentName, newName)
    {
      if currentName == newName {
        return NoOp;
      }
      var found := Policies.FindPipelineRefs(State(), currentName);
      if found.None? {
        return NoOp;
      }
      var refs := found.value;
      var oldId := policies[refs.policy].id;
      var policy := policies[refs.policy].(name := newName);
      policy := policy.(id := policy.UniqueId());
      policies := policies[refs.policy := policy];
      pipelines := RewriteReferencing(pipelines, refs.pipelines, oldId, newName);
      r := Ok(policy);
    }

    /** `Policy.deleteByName`: 404 for an unknown name, 400 for a referenced
        policy unless `force` is set; otherwise detach the id from each
        referencing pipeline, then destroy the policy. */
    method DeletePolicyByName(name: string, force: Option<bool>) returns (r: Outcome<bool>)
      modifies this
      ensures (r, State()) == Policies.DeleteByName(old(State()), name, force)
    {
      var found := Policies.FindPipelineRefs(State(), name);
      if found.None? {
        return NotFound;
      }
      var refs := found.value;
      if force != Some(true) && |refs.pipelines| > 0 {
        return InUse;
      }
      var id := policies[refs.policy].id;
      pipelines := StripReferencing(pipelines, refs.pipelines, id);
      policies := policies[..refs.policy] + policies[refs.policy + 1..];
      r := Ok(true);
    }

    /** `Pipeline.rename`: update the pipeline's name and id, then point each
        mapping that referenced the old id at the new one. */
    method RenamePipeline(currentName: string, newName: string) returns (r: Outcome<Pipeline>)
      requires currentName != newName ==> Pipelines.PipelineNamed(State(), currentName)
      modifies this
      ensures (r, State()) == Pipelines.Rename(old(State()), currentName, newName)
    {
      if currentName == newName {
        return NoOp;
      }
      var refs := Pipelines.FindMapRefs(State(), currentName);
      var oldId := pipelines[refs.pipeline].id;
      var pipeline := pipelines[refs.pipeline].(name := newName);
      pipeline := pipeline.(id := pipeline.UniqueId());
      pipelines := pipelines[refs.pipeline := pipeline];
      mappings := RepointReferencing(mappings, refs.mappings, oldId, pipeline.id);
      r := Ok(pipeline);
    }
  }
}
