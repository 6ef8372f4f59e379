/** The policy model: finding the pipelines that reference a policy, and the
    rename and delete operations that keep those references consistent.
    Each operation is a function from the configuration before to the outcome
    and the configuration after; the store methods in module Store are proved
    to compute exactly these. */
module Policies {
  import opened Entities

  /** Indices, in store order, of the pipelines whose `policyIds` list `id`. */
  function ReferencingPipelines(ps: seq<Pipeline>, id: string): (r: seq<nat>)
    ensures forall k :: 0 <= k < |r| ==> r[k] < |ps|
    ensures forall k, l :: 0 <= k < l < |r| ==> r[k] < r[l]
    ensures forall t :: 0 <= t < |ps| ==> (t in r <==> id in ps[t].policyIds)
    decreases |ps|
  {
    if ps == [] then []
    else
      var n := |ps| - 1;
      ReferencingPipelines(ps[..n], id) + (if id in ps[n].policyIds then [n] else [])
  }

  /** The answer of `findPipelineRefs`: the policy found and the pipelines
      that reference it, both as positions in the store. */
  datatype PolicyRefs = PolicyRefs(policy: nat, pipelines: seq<nat>)

  /** No answer when no policy has that name; otherwise the first policy of
      that name and exactly the pipelines that list its id, in store order. */
  function FindPipelineRefs(c: Config, name: string): (r: Option<PolicyRefs>)
    ensures r.None? <==> forall i :: 0 <= i < |c.policies| ==> c.policies[i].name != name
    ensures r.Some? ==>
      && r.value.policy < |c.policies|
      && c.policies[r.value.policy].name == name
      && (forall i :: 0 <= i < r.value.policy ==> c.policies[i].name != name)
    ensures r.Some? ==>
      && (forall k, l :: 0 <= k < l < |r.value.pipelines| ==> r.value.pipelines[k] < r.value.pipelines[l])
      && (forall k :: 0 <= k < |r.value.pipelines| ==> r.value.pipelines[k] < |c.pipelines|)
      && (forall t :: 0 <= t < |c.pipelines| ==>
            (t in r.value.pipelines <==> c.policies[r.value.policy].id in c.pipelines[t].policyIds))
  {
    match FirstIndex(c.policies, PolicyName, name)
    case None => None
    case Some(i) => Some(PolicyRefs(i, ReferencingPipelines(c.pipelines, c.policies[i].id)))
  }

  /** `ids` with every occurrence of `oldId` overwritten by `newId`. */
  function Replaced(ids: seq<string>, oldId: string, newId: string): seq<string>
  {
    seq(|ids|, k requires 0 <= k < |ids| => if ids[k] == oldId then newId else ids[k])
  }

  /** The loop of `rename` over one pipeline's ids, overwriting in place. */
  method ReplaceAll(a: array<string>, oldId: string, newId: string)
    modifies a
    ensures a[..] == Replaced(old(a[..]), oldId, newId)
  {
    var k := 0;
    while k < a.Length
      invariant 0 <= k <= a.Length
      invariant forall j :: 0 <= j < k ==> a[j] == if old(a[j]) == oldId then newId else old(a[j])
      invariant forall j :: k <= j < a.Length ==> a[j] == old(a[j])
    {
      if a[k] == oldId {
        a[k] := newId;
      }
      k := k + 1;
    }
  }

  /** `ids` with every occurrence of `id` removed, the rest in order. */
  function Without(ids: seq<string>, id: string): (r: seq<string>)
    ensures forall x :: x in r <==> x in ids && x != id
    ensures |r| <= |ids|
    ensures id !in ids ==> r == ids
    decreases |ids|
  {
    if ids == [] then []
    else
      var n := |ids| - 1;
      Without(ids[..n], id) + (if ids[n] == id then [] else [ids[n]])
  }

  /** Removal drops every copy of the id and keeps every other id as often as it was listed. */
  lemma {:induction false} WithoutCounts(ids: seq<string>, id: string)
    ensures multiset(Without(ids, id)) == multiset(ids)[id := 0]
    decreases |ids|
  {
    if ids != [] {
      var n := |ids| - 1;
      assert ids == ids[..n] + [ids[n]];
      WithoutCounts(ids[..n], id);
    }
  }

  /** Removal works piecewise: the ids that stay keep their relative order. */
  lemma {:induction false} WithoutAppend(a: seq<string>, b: seq<string>, id: string)
    ensures Without(a + b, id) == Without(a, id) + Without(b, id)
    decreases |b|
  {
    if b == [] {
      assert a + b == a;
    } else {
      var n := |b| - 1;
      assert (a + b)[..|a + b| - 1] == a + b[..n];
      assert (a + b)[|a + b| - 1] == b[n];
      WithoutAppend(a, b[..n], id);
    }
  }

  /** The referencing pipelines with `oldId` rewritten to `newId`; the others as they were. */
  function RewriteRefs(ps: seq<Pipeline>, oldId: string, newId: string): seq<Pipeline>
  {
    seq(|ps|, t requires 0 <= t < |ps| =>
      if oldId in ps[t].policyIds then ps[t].(policyIds := Replaced(ps[t].policyIds, oldId, newId)) else ps[t])
  }

  /** The referencing pipelines with `id` detached; the others as they were. */
  function StripRefs(ps: seq<Pipeline>, id: string): seq<Pipeline>
  {
    seq(|ps|, t requires 0 <= t < |ps| =>
      if id in ps[t].policyIds then ps[t].(policyIds := Without(ps[t].policyIds, id)) else ps[t])
  }

  /** `Policy.rename`: the outcome and the configuration afterwards. */
  function Rename(c: Config, currentName: string, newName: string): (r: (Outcome<Policy>, Config))
    ensures r.0.Ok? || r.0.NoOp?
    ensures r.0.NoOp? ==> r.1 == c
    ensures r.0.Ok? ==> r.0.value.name == newName
    ensures |r.1.policies| == |c.policies| && |r.1.pipelines| == |c.pipelines| && r.1.mappings == c.mappings
  {
    if currentName == newName then (NoOp, c)
    else match FindPipelineRefs(c, currentName)
      case None => (NoOp, c)
      case Some(refs) =>
        var oldId := c.policies[refs.policy].id;
        var named := c.policies[refs.policy].(name := newName);
        var renamed := named.(id := named.UniqueId());
        (Ok(renamed), c.(policies := c.policies[refs.policy := renamed],
                         pipelines := RewriteRefs(c.pipelines, oldId, newName)))
  }

  /** `Policy.deleteByName`; `force` is `None` when the caller leaves it out. */
  function DeleteByName(c: Config, name: string, force: Option<bool>): (r: (Outcome<bool>, Config))
    ensures r.0.Ok? || r.0.NotFound? || r.0.InUse?
    ensures !r.0.Ok? ==> r.1 == c
    ensures r.0.Ok? ==> r.0.value && |r.1.policies| == |c.policies| - 1
    ensures |r.1.pipelines| == |c.pipelines| && r.1.mappings == c.mappings
  {
    match FindPipelineRefs(c, name)
    case None => (NotFound, c)
    case Some(refs) =>
      if force != Some(true) && |refs.pipelines| > 0 then (InUse, c)
      else
        var id := c.policies[refs.policy].id;
        (Ok(true), c.(policies := c.policies[..refs.policy] + c.policies[refs.policy + 1..],
                      pipelines := StripRefs(c.pipelines, id)))
  }

  /** Some policy of the list has this id. */
  ghost predicate HasPolicy(qs: seq<Policy>, x: string)
  {
    exists i :: 0 <= i < |qs| && qs[i].id == x
  }

  /** Referential integrity: every id a pipeline lists belongs to a policy. */
  ghost predicate NoDanglingPolicyRefs(c: Config)
  {
    forall t, x :: 0 <= t < |c.pipelines| && x in c.pipelines[t].policyIds ==> HasPolicy(c.policies, x)
  }

  /** Renaming to the current name, or renaming an unknown policy, answers
      `false` and changes nothing; rename never fails with an error status. */
  lemma RenameOutcome(c: Config, currentName: string, newName: string)
    ensures var r := Rename(c, currentName, newName);
      && (r.0.NoOp? <==> currentName == newName || forall i :: 0 <= i < |c.policies| ==> c.policies[i].name != currentName)
      && (r.0.NoOp? ==> r.1 == c)
      && (r.0.Ok? || r.0.NoOp?)
  {
  }

  /** A rename that succeeds renames the first policy of that name (name and
      `name || id`), rewrites the old id in every position of every
      referencing pipeline and touches nothing else; afterwards no pipeline
      lists the old id (unless the new name is that very id). */
  lemma RenameRewritesReferences(c: Config, currentName: string, newName: string)
    requires currentName != newName
    requires exists i :: 0 <= i < |c.policies| && c.policies[i].name == currentName
    ensures var i := FindPipelineRefs(c, currentName).value.policy;
      var oldId := c.policies[i].id;
      var r := Rename(c, currentName, newName);
      && r.0 == Ok(c.policies[i].(name := newName, id := NameOrId(newName, oldId)))
      && r.1.policies == c.policies[i := r.0.value]
      && r.1.mappings == c.mappings
      && |r.1.pipelines| == |c.pipelines|
      && (forall t :: 0 <= t < |c.pipelines| ==>
            && r.1.pipelines[t].id == c.pipelines[t].id
            && r.1.pipelines[t].name == c.pipelines[t].name
            && |r.1.pipelines[t].policyIds| == |c.pipelines[t].policyIds|)
      && (forall t, k :: 0 <= t < |c.pipelines| && 0 <= k < |c.pipelines[t].policyIds| ==>
            r.1.pipelines[t].policyIds[k] ==
              if c.pipelines[t].policyIds[k] == oldId then newName else c.pipelines[t].policyIds[k])
      && (forall t :: 0 <= t < |c.pipelines| && oldId !in c.pipelines[t].policyIds ==>
            r.1.pipelines[t] == c.pipelines[t])
      && (newName != oldId ==> forall t :: 0 <= t < |c.pipelines| ==> oldId !in r.1.pipelines[t].policyIds)
  {
    var i := FindPipelineRefs(c, currentName).value.policy;
    var oldId := c.policies[i].id;
    var r := Rename(c, currentName, newName);
    if newName != oldId {
      forall t | 0 <= t < |c.pipelines| ensures oldId !in r.1.pipelines[t].policyIds {
        var ids := c.pipelines[t].policyIds;
        if oldId in ids {
          assert r.1.pipelines[t].policyIds == Replaced(ids, oldId, newName);
          forall k | 0 <= k < |ids| ensures Replaced(ids, oldId, newName)[k] != oldId {}
        }
      }
    }
  }

  /** With a non-empty new name, a rename keeps every pipeline reference
      pointing at an existing policy: the references that followed the
      renamed policy name its new id. */
  lemma {:induction false} RenamePreservesIntegrity(c: Config, currentName: string, newName: string)
    requires NoDanglingPolicyRefs(c)
    requires newName != ""
    ensures NoDanglingPolicyRefs(Rename(c, currentName, newName).1)
  {
    var r := Rename(c, currentName, newName);
    if r.0.Ok? {
      var i := FindPipelineRefs(c, currentName).value.policy;
      var oldId := c.policies[i].id;
      assert r.1.policies[i].id == newName;
      forall t, x | 0 <= t < |r.1.pipelines| && x in r.1.pipelines[t].policyIds
        ensures HasPolicy(r.1.policies, x)
      {
        var ids := c.pipelines[t].policyIds;
        var k :| 0 <= k < |r.1.pipelines[t].policyIds| && r.1.pipelines[t].policyIds[k] == x;
        if oldId in ids && ids[k] == oldId {
          assert x == newName;
        } else {
          if oldId in ids {
            assert r.1.pipelines[t].policyIds == Replaced(ids, oldId, newName);
          }
          assert x == ids[k] && x != oldId;
          assert HasPolicy(c.policies, x);
          var j :| 0 <= j < |c.policies| && c.policies[j].id == x;
          assert j != i && r.1.policies[j] == c.policies[j];
        }
      }
    }
  }

  /** Deleting an unknown name fails with 404 and leaves the configuration as it was. */
  lemma DeleteNotFound(c: Config, name: string, force: Option<bool>)
    requires forall i :: 0 <= i < |c.policies| ==> c.policies[i].name != name
    ensures DeleteByName(c, name, force) == (NotFound, c)
    ensures DeleteByName(c, name, force).0.StatusCode() == 404
  {
  }

  /** Without `force`, deleting a policy that some pipeline lists fails with
      400 and leaves the policy and every reference in place. */
  lemma DeleteInUse(c: Config, name: string, force: Option<bool>)
    requires force != Some(true)
    requires exists i :: 0 <= i < |c.policies| && c.policies[i].name == name
    requires exists t :: 0 <= t < |c.pipelines| && c.policies[FindPipelineRefs(c, name).value.policy].id in c.pipelines[t].policyIds
    ensures DeleteByName(c, name, force) == (InUse, c)
    ensures DeleteByName(c, name, force).0.StatusCode() == 400
  {
    var refs := FindPipelineRefs(c, name).value;
    var t :| 0 <= t < |c.pipelines| && c.policies[refs.policy].id in c.pipelines[t].policyIds;
    assert t in refs.pipelines;
  }

  /** Leaving `force` out behaves exactly as `force == false`. */
  lemma DeleteDefaultsToNoForce(c: Config, name: string)
    ensures DeleteByName(c, name, None) == DeleteByName(c, name, Some(false))
  {
  }

  /** A delete of an existing policy succeeds exactly when `force` is set
      or no pipeline lists the policy's id. */
  lemma DeleteSucceedsIff(c: Config, name: string, force: Option<bool>)
    requires exists i :: 0 <= i < |c.policies| && c.policies[i].name == name
    ensures var id := c.policies[FindPipelineRefs(c, name).value.policy].id;
      DeleteByName(c, name, force).0.Ok? <==>
        force == Some(true) || forall t :: 0 <= t < |c.pipelines| ==> id !in c.pipelines[t].policyIds
  {
    var refs := FindPipelineRefs(c, name).value;
    var id := c.policies[refs.policy].id;
    assert DeleteByName(c, name, force).0.Ok? <==> force == Some(true) || |refs.pipelines| == 0;
    if |refs.pipelines| > 0 {
      assert refs.pipelines[0] in refs.pipelines;
      assert id in c.pipelines[refs.pipelines[0]].policyIds;
    } else {
      forall t | 0 <= t < |c.pipelines| ensures id !in c.pipelines[t].policyIds {
        assert t !in refs.pipelines;
      }
    }
  }

  /** A delete that succeeds answers `true`, removes the first policy of
      that name, keeps every pipeline (same ids and names), detaches the id
      from each of them, and leaves the mappings alone. */
  lemma DeleteDetaches(c: Config, name: string, force: Option<bool>)
    requires DeleteByName(c, name, force).0.Ok?
    ensures FindPipelineRefs(c, name).Some?
    ensures var i := FindPipelineRefs(c, name).value.policy;
      var id := c.policies[i].id;
      var r := DeleteByName(c, name, force);
      && r.0.value
      && r.1.policies == c.policies[..i] + c.policies[i + 1..]
      && r.1.mappings == c.mappings
      && |r.1.pipelines| == |c.pipelines|
      && (forall t :: 0 <= t < |c.pipelines| ==>
            && r.1.pipelines[t].id == c.pipelines[t].id
            && r.1.pipelines[t].name == c.pipelines[t].name
            && r.1.pipelines[t].policyIds == Without(c.pipelines[t].policyIds, id)
            && id !in r.1.pipelines[t].policyIds)
  {
    var refs := FindPipelineRefs(c, name).value;
    var id := c.policies[refs.policy].id;
    assert DeleteByName(c, name, force).1.pipelines == StripRefs(c.pipelines, id);
    StripRefsDetaches(c.pipelines, id);
  }

  /** Detaching touches only `policyIds`, and in each pipeline removes
      exactly the id. */
  lemma StripRefsDetaches(ps: seq<Pipeline>, id: string)
    ensures |StripRefs(ps, id)| == |ps|
    ensures forall t :: 0 <= t < |ps| ==>
      && StripRefs(ps, id)[t] == ps[t].(policyIds := Without(ps[t].policyIds, id))
      && id !in StripRefs(ps, id)[t].policyIds
  {
  }

  /** A delete never leaves a pipeline listing the id of a policy that is gone. */
  lemma {:induction false} DeletePreservesIntegrity(c: Config, name: string, force: Option<bool>)
    requires NoDanglingPolicyRefs(c)
    ensures NoDanglingPolicyRefs(DeleteByName(c, name, force).1)
  {
    var r := DeleteByName(c, name, force);
    if r.0.Ok? {
      var i := FindPipelineRefs(c, name).value.policy;
      var id := c.policies[i].id;
      forall t, x | 0 <= t < |r.1.pipelines| && x in r.1.pipelines[t].policyIds
        ensures HasPolicy(r.1.policies, x)
      {
        assert x in c.pipelines[t].policyIds && x != id;
        assert HasPolicy(c.policies, x);
        var j :| 0 <= j < |c.policies| && c.policies[j].id == x;
        assert j != i;
        if j < i {
          assert r.1.policies[j] == c.policies[j];
        } else {
          assert r.1.policies[j - 1] == c.policies[j];
        }
      }
    }
  }
}
