/**
 * The `/c/p/:project` handler: find the project in the static registry,
 * build its rules, and answer with the document or a 404 message.
 */
module Server {
  import opened Wrappers
  import opened GoStd
  import opened GitHub
  import opened Rules

  /** The registry of known projects, fixed at start-up. */
  const Registry: seq<Ruleset> :=
    [Ruleset("rhps", "RedHatProductSecurity", "django-migration-rules")]

  const StatusOK := 200
  const StatusNotFound := 404
  const ProjectNotFound := "project not found"
  const RepoUnavailable := "Repo information could not be retrieved"

  /** The body handed to the response writer. */
  datatype Body =
    | Message(message: string)  // `c.JSON` with `{"message": ...}`
    | Document(rules: seq<byte>)  // the raw rules that `c.YAML` re-serialises

  datatype Response = Response(status: int, body: Body)

  /** The index of the first registered project named `project`, if any. */
  function FindProject(rulesets: seq<Ruleset>, project: string): (k: Option<nat>)
    ensures k.Some? ==> k.value < |rulesets| && rulesets[k.value].project == project
    ensures k.Some? ==> forall j :: 0 <= j < k.value ==> rulesets[j].project != project
    ensures k.None? <==> forall j :: 0 <= j < |rulesets| ==> rulesets[j].project != project
  {
    if |rulesets| == 0 then None
    else if rulesets[0].project == project then Some(0)
    else
      match FindProject(rulesets[1..], project)
      case None => None
      case Some(k) => Some(k + 1)
  }

  /** `getRulesetByProjectID` over the registry `rulesets`. */
  method GetRulesetByProjectId(rulesets: seq<Ruleset>, project: string, gh: Remote)
    returns (resp: Response)
    ensures FindProject(rulesets, project).None? ==>
              resp == Response(StatusNotFound, Message(ProjectNotFound))
    ensures FindProject(rulesets, project).Some? ==>
              var rules := RulesOf(rulesets[FindProject(rulesets, project).value], gh);
              (rules.Err? ==> resp == Response(StatusNotFound, Message(RepoUnavailable))) &&
              (rules.Ok? ==> resp == Response(StatusOK, Document(rules.value)))
  {
    for i := 0 to |rulesets|
      invariant forall j :: 0 <= j < i ==> rulesets[j].project != project
    {
      var ruleset := rulesets[i];
      if ruleset.project == project {
        var rules := GetRules(ruleset, gh);
        if rules.Err? {
          return Response(StatusNotFound, Message(RepoUnavailable));
        }
        return Response(StatusOK, Document(rules.value));
      }
    }
    return Response(StatusNotFound, Message(ProjectNotFound));
  }

  /** The first of several rulesets with the same name is the one served. */
  lemma {:induction false} FirstMatchWins(rulesets: seq<Ruleset>, k: nat, project: string)
    requires k < |rulesets| && rulesets[k].project == project
    requires forall j :: 0 <= j < k ==> rulesets[j].project != project
    ensures FindProject(rulesets, project) == Some(k)
  {
    if k > 0 {
      assert rulesets[0].project != project;
      assert forall j :: 0 <= j < k - 1 ==> rulesets[1..][j] == rulesets[j + 1];
      FirstMatchWins(rulesets[1..], k - 1, project);
    }
  }

  /** The registry serves `rhps` from its rules repository and nothing else. */
  lemma RegistryLookup(project: string)
    ensures FindProject(Registry, project) == if project == "rhps" then Some(0) else None
  {
  }
}
