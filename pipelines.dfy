/** The pipeline model: finding the gateway mappings that point at a pipeline,
    and the rename that repoints them. */
module Pipelines {
  import opened Entities

  /** Indices, in store order, of the mappings whose `pipelineId` is `id`. */
  function MappingsReferencing(ms: seq<Mapping>, id: string): (r: seq<nat>)
    ensures forall k :: 0 <= k < |r| ==> r[k] < |ms|
    ensures forall k, l :: 0 <= k < l < |r| ==> r[k] < r[l]
    ensures forall t :: 0 <= t < |ms| ==> (t in r <==> ms[t].pipelineId == Some(id))
    decreases |ms|
  {
    if ms == [] then []
    else
      var n := |ms| - 1;
      MappingsReferencing(ms[..n], id) + (if ms[n].pipelineId == Some(id) then [n] else [])
  }

  /** The answer of `findMapRefs`: the pipeline found and the mappings that
      point at it, as positions in the store. */
  datatype MapRefs = MapRefs(pipeline: nat, mappings: seq<nat>)

  /** Some pipeline carries this name. `findMapRefs` reads `pipeline.id`
      without checking that the lookup found anything, so callers must
      only ask for pipelines that exist. */
  ghost predicate PipelineNamed(c: Config, name: string)
  {
    exists i :: 0 <= i < |c.pipelines| && c.pipelines[i].name == name
  }

  /** The first pipeline of that name and exactly the mappings that point at
      its id, in store order. */
  function FindMapRefs(c: Config, name: string): (r: MapRefs)
    requires PipelineNamed(c, name)
    ensures r.pipeline < |c.pipelines| && c.pipelines[r.pipeline].name == name
    ensures forall i :: 0 <= i < r.pipeline ==> c.pipelines[i].name != name
    ensures forall k, l :: 0 <= k < l < |r.mappings| ==> r.mappings[k] < r.mappings[l]
    ensures forall k :: 0 <= k < |r.mappings| ==> r.mappings[k] < |c.mappings|
    ensures forall t :: 0 <= t < |c.mappings| ==>
      (t in r.mappings <==> c.mappings[t].pipelineId == Some(c.pipelines[r.pipeline].id))
  {
    var i := FirstIndex(c.pipelines, PipelineName, name).value;
    MapRefs(i, MappingsReferencing(c.mappings, c.pipelines[i].id))
  }

  /** The mappings that pointed at `oldId` now point at `newId`; the others as they were. */
  function Repoint(ms: seq<Mapping>, oldId: string, newId: string): seq<Mapping>
  {
    seq(|ms|, t requires 0 <= t < |ms| =>
      if ms[t].pipelineId == Some(oldId) then ms[t].(pipelineId := Some(newId)) else ms[t])
  }

  /** `Pipeline.rename`: the outcome and the configuration afterwards. */
  function Rename(c: Config, currentName: string, newName: string): (r: (Outcome<Pipeline>, Config))
    requires currentName != newName ==> PipelineNamed(c, currentName)
    ensures r.0.NoOp? <==> currentName == newName
    ensures r.0.Ok? || r.0.NoOp?
    ensures r.0.NoOp? ==> r.1 == c
    ensures r.0.Ok? ==> r.0.value.name == newName
    ensures r.1.policies == c.policies && |r.1.pipelines| == |c.pipelines| && |r.1.mappings| == |c.mappings|
  {
    if currentName == newName then (NoOp, c)
    else
      var refs := FindMapRefs(c, currentName);
      var oldId := c.pipelines[refs.pipeline].id;
      var named := c.pipelines[refs.pipeline].(name := newName);
      var renamed := named.(id := named.UniqueId());
      (Ok(renamed), c.(pipelines := c.pipelines[refs.pipeline := renamed],
                       mappings := Repoint(c.mappings, oldId, renamed.id)))
  }

  /** Some pipeline of the list has this id. */
  ghost predicate HasPipeline(ps: seq<Pipeline>, x: string)
  {
    exists i :: 0 <= i < |ps| && ps[i].id == x
  }

  /** Referential integrity: every mapping that names a pipeline names an existing one. */
  ghost predicate NoDanglingMappingRefs(c: Config)
  {
    forall t :: 0 <= t < |c.mappings| && c.mappings[t].pipelineId.Some? ==>
      HasPipeline(c.pipelines, c.mappings[t].pipelineId.value)
  }

  /** Renaming a pipeline to its current name answers `false` and changes nothing. */
  lemma RenameSameName(c: Config, name: string)
    ensures Rename(c, name, name) == (NoOp, c)
  {
  }

  /** A rename renames the first pipeline of that name (name and `name || id`,
      its policy chain untouched), repoints every mapping that pointed at the
      old id to the new id, keeps every other mapping and the mapping count,
      and touches no policy and no other pipeline. */
  lemma RenameRepointsMappings(c: Config, currentName: string, newName: string)
    requires currentName != newName
    requires PipelineNamed(c, currentName)
    ensures var i := FindMapRefs(c, currentName).pipeline;
      var oldId := c.pipelines[i].id;
      var newId := NameOrId(newName, oldId);
      var r := Rename(c, currentName, newName);
      && r.0 == Ok(c.pipelines[i].(name := newName, id := newId))
      && r.0.value.policyIds == c.pipelines[i].policyIds
      && (newName != "" ==> newId == newName)
      && r.1.policies == c.policies
      && r.1.pipelines == c.pipelines[i := r.0.value]
      && |r.1.mappings| == |c.mappings|
      && (forall t :: 0 <= t < |c.mappings| && c.mappings[t].pipelineId == Some(oldId) ==>
            r.1.mappings[t] == c.mappings[t].(pipelineId := Some(newId)))
      && (forall t :: 0 <= t < |c.mappings| && c.mappings[t].pipelineId != Some(oldId) ==>
            r.1.mappings[t] == c.mappings[t])
      && (newId != oldId ==> forall t :: 0 <= t < |c.mappings| ==> r.1.mappings[t].pipelineId != Some(oldId))
  {
  }

  /** A rename keeps every mapping that names a pipeline pointing at an existing one. */
  lemma {:induction false} RenamePreservesIntegrity(c: Config, currentName: string, newName: string)
    requires currentName != newName ==> PipelineNamed(c, currentName)
    requires NoDanglingMappingRefs(c)
    ensures NoDanglingMappingRefs(Rename(c, currentName, newName).1)
  {
    var r := Rename(c, currentName, newName);
    if currentName != newName {
      var i := FindMapRefs(c, currentName).pipeline;
      var oldId := c.pipelines[i].id;
      forall t | 0 <= t < |r.1.mappings| && r.1.mappings[t].pipelineId.Some?
        ensures HasPipeline(r.1.pipelines, r.1.mappings[t].pipelineId.value)
      {
        if c.mappings[t].pipelineId == Some(oldId) {
          assert r.1.mappings[t].pipelineId.value == r.1.pipelines[i].id;
        } else {
          var x := c.mappings[t].pipelineId.value;
          assert r.1.mappings[t] == c.mappings[t];
          assert HasPipeline(c.pipelines, x);
          var j :| 0 <= j < |c.pipelines| && c.pipelines[j].id == x;
          assert j != i && r.1.pipelines[j] == c.pipelines[j];
        }
      }
    }
  }
}
