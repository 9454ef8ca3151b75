/**
 * The GitHub side of the gate in `migrate`: `is_github_repo_empty` decides from
 * the reply to the repository query whether creation is attempted, and
 * `create_github_repo` spaces create calls at least two seconds apart.
 *
 * Time is integer milliseconds. The clock reading before the create call and
 * the time the POST takes are inputs; the reply status is an input.
 */
module Destination {

  /** Reply to GET /repos/{user}/{name}: its status and, on 200, the `size` field. */
  datatype RepoQuery = RepoQuery(status: int, size: int)

  /**
   * `is_github_repo_empty`: an existing repository of size 0 and a missing one
   * (404) count as empty; any other status counts as not empty.
   */
  function IsGithubRepoEmpty(query: RepoQuery): (empty: bool)
    ensures empty <==> (query.status == 200 && query.size == 0) || query.status == 404
  {
    if query.status == 200 then query.size == 0
    else if query.status == 404 then true
    else false
  }

  /** `min_interval`, in milliseconds. */
  const MinIntervalMs: int := 2000

  /**
   * When the create POST is issued: at `now`, or, if less than the minimum
   * interval has passed since `lastCreateTime`, after sleeping the remainder.
   */
  function CreateIssueTime(now: int, lastCreateTime: int): (issuedAt: int)
    ensures issuedAt >= now && issuedAt >= lastCreateTime + MinIntervalMs
    ensures issuedAt == now || issuedAt == lastCreateTime + MinIntervalMs
    ensures issuedAt - now <= MinIntervalMs <==> now >= lastCreateTime
  {
    var elapsed := now - lastCreateTime;
    if elapsed < MinIntervalMs then now + (MinIntervalMs - elapsed) else now
  }

  /** `(success, time.time())` of `create_github_repo`, plus the moment the POST went out. */
  datatype CreateResult = CreateResult(created: bool, issuedAt: int, finishedAt: int)

  /**
   * `create_github_repo`: waits, POSTs a private repository, succeeds exactly on
   * status 201, and returns the clock after the reply whatever the status.
   */
  function CreateGithubRepo(now: int, lastCreateTime: int, status: int, postDuration: nat): (c: CreateResult)
    ensures c.created <==> status == 201
    ensures c.issuedAt >= lastCreateTime + MinIntervalMs && c.issuedAt >= now
    ensures c.finishedAt >= c.issuedAt
  {
    var issuedAt := CreateIssueTime(now, lastCreateTime);
    CreateResult(status == 201, issuedAt, issuedAt + postDuration)
  }

  /**
   * Two create calls in a row, the second given the timestamp the first
   * returned, go out at least the minimum interval apart, whatever the clock
   * reads and whether or not the first succeeded.
   */
  lemma ConsecutiveCreatesSpaced(now1: int, last: int, status1: int, duration1: nat,
                                 now2: int, status2: int, duration2: nat)
    ensures var first := CreateGithubRepo(now1, last, status1, duration1);
            var second := CreateGithubRepo(now2, first.finishedAt, status2, duration2);
            second.issuedAt >= first.issuedAt + MinIntervalMs
  {
  }
}
