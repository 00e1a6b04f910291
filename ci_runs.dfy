/** A workflow run of the GitHub Actions API as analytics/services/github_ci.py
    reads it: each field is missing (`None`) or holds the value the JSON
    gives. */
module CiRuns {
  import opened Wrappers

  datatype Run = Run(
    id: Option<int>,
    name: Option<string>,
    event: Option<string>,
    status: Option<string>,
    conclusion: Option<string>,
    createdAt: Option<string>,
    updatedAt: Option<string>,
    htmlUrl: Option<string>,
    headBranch: Option<string>,
    workflowId: Option<int>,
    headSha: Option<string>,
    /** `head_repository.full_name`, missing when either is. */
    headRepository: Option<string>)

  /** `run.get("updated_at") or run.get("created_at")`: the update time when
      it is non-empty, the creation time as it is otherwise. */
  function Timestamp(run: Run): (ts: Option<string>)
    ensures Truthy(ts) <==> Truthy(run.updatedAt) || Truthy(run.createdAt)
    ensures Truthy(run.updatedAt) ==> ts == run.updatedAt
  {
    if Truthy(run.updatedAt) then run.updatedAt else run.createdAt
  }
}
