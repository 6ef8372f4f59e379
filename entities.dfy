/** Records of the gateway workspace: policies, pipelines and gateway mappings,
    the configuration that holds them, and the lookup rules shared by all three
    models. */
module Entities {

  datatype Option<T> = None | Some(value: T)

  /** JavaScript's `name || id` on a string name: an empty (or missing) name
      falls back to the id. */
  function NameOrId(name: string, id: string): (r: string)
    ensures name != "" ==> r == name
    ensures name == "" ==> r == id
  {
    if name != "" then name else id
  }

  /** A policy; `scopes` is absent for most policy types and only read for
      `auth` policies. */
  datatype Policy = Policy(id: string, name: string, policyType: string, scopes: Option<seq<string>>)
  {
    function UniqueId(): (r: string)
      ensures name != "" ==> r == name
      ensures name == "" ==> r == id
    {
      NameOrId(name, id)
    }
  }

  /** A pipeline: an ordered chain of policy ids. */
  datatype Pipeline = Pipeline(id: string, name: string, policyIds: seq<string>)
  {
    function UniqueId(): (r: string)
      ensures name != "" ==> r == name
      ensures name == "" ==> r == id
    {
      NameOrId(name, id)
    }
  }

  /** A gateway mapping: a verb and endpoint bound to a pipeline id (or to none). */
  datatype Mapping = Mapping(id: string, name: string, verb: string, endpoint: string, pipelineId: Option<string>)
  {
    function UniqueId(): (r: string)
      ensures name != "" ==> r == name
      ensures name == "" ==> r == id
    {
      NameOrId(name, id)
    }
  }

  /** The whole in-memory configuration, each collection in store order. */
  datatype Config = Config(policies: seq<Policy>, pipelines: seq<Pipeline>, mappings: seq<Mapping>)

  /** What a rename or delete reports: a value, the `false` of "nothing done",
      or one of the two errors that carry an HTTP status code. */
  datatype Outcome<T> = Ok(value: T) | NoOp | NotFound | InUse
  {
    function StatusCode(): (code: nat)
      requires NotFound? || InUse?
      ensures NotFound? ==> code == 404
      ensures InUse? ==> code == 400
    {
      if NotFound? then 404 else 400
    }
  }

  function PolicyName(p: Policy): string { p.name }
  function PipelineName(p: Pipeline): string { p.name }

  /** `findOne({where: {name: name}})`: the first record, in store order,
      whose key is `name`. */
  function FirstIndex<T>(s: seq<T>, key: T -> string, name: string): (r: Option<nat>)
    ensures r.Some? ==> r.value < |s| && key(s[r.value]) == name
    ensures r.Some? ==> forall j :: 0 <= j < r.value ==> key(s[j]) != name
    ensures r.None? <==> forall j :: 0 <= j < |s| ==> key(s[j]) != name
    decreases |s|
  {
    if s == [] then None
    else if key(s[0]) == name then Some(0)
    else match FirstIndex(s[1..], key, name)
      case None => None
      case Some(k) => Some(k + 1)
  }
}
