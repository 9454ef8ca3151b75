/**
 * `migrate` and the loop that drives it. Each call, one source repository at a
 * time, decides whether to create the GitHub repository and then runs a fixed
 * sequence of external steps. The model records those steps, in order, as a
 * trace: the create POST, the archive PATCHes and the `git`/`rm` subprocesses.
 * Subprocess exit codes are never read by the source, so they are not inputs and
 * nothing in the trace depends on them.
 */
module Migration {
  import opened Wrappers
  import Naming
  import CloneUrl
  import Catalog
  import Destination

  /** The default `size_limit` of `remove_large_files` (100 MiB), in bytes. */
  const LargeFileLimitBytes: int := 100 * 1024 * 1024

  /** Working directories live under this directory, one per GitHub name. */
  const WorkRoot: string := "tmp_data/"

  datatype Step =
    | CreateRepo(repo: string, issuedAt: int)
    | DeleteDir(path: string)
    | CloneMirror(url: string, path: string)
    | RemoveLargeFiles(path: string, limitBytes: int)
    | RewriteHistory(path: string)
    | Lfs(path: string)
    | Unarchive(repo: string)
    | PushMirror(origin: string, path: string)
    | Archive(repo: string)

  /** Configuration read from the environment. */
  datatype Config = Config(githubUser: string, bitbucketPass: string)

  /**
   * What the outside world answers while one repository is migrated: the reply
   * to the emptiness query, the clock when `create_github_repo` starts, the status
   * of the create POST and how long that POST takes.
   */
  datatype Answers = Answers(query: Destination.RepoQuery, clock: int, createStatus: int, postDuration: nat)

  /**
   * `Aborted`: the clone URL has no '@' and the splice raises IndexError before
   * anything happens; `CreateFailed`: the early return; `Migrated`: the full run.
   */
  datatype Outcome = Aborted | CreateFailed | Migrated

  datatype Migration = Migration(outcome: Outcome, lastCreateTime: int, trace: seq<Step>)

  function WorkDir(gh: string): string { WorkRoot + gh }

  /** The steps after the gate, in the order `migrate` runs them. */
  function Pipeline(gh: string, cloneUrl: string, origin: string): (steps: seq<Step>)
    ensures |steps| == 9 && forall i :: 0 <= i < 9 ==> !steps[i].CreateRepo?
  {
    var path := WorkDir(gh);
    [DeleteDir(path), CloneMirror(cloneUrl, path), RemoveLargeFiles(path, LargeFileLimitBytes),
     RewriteHistory(path), Lfs(path), Unarchive(gh), PushMirror(origin, path), Archive(gh),
     DeleteDir(path)]
  }

  predicate CreationAttempted(trace: seq<Step>)
  {
    |trace| > 0 && trace[0].CreateRepo?
  }

  /** The migration of one repository, as the source performs it. */
  function MigrationOf(config: Config, record: Catalog.RepoRecord, lastCreateTime: int, answers: Answers)
    : Migration
  {
    match CloneUrl.SpliceCredentials(record.cloneUrl, config.bitbucketPass)
    case None => Migration(Aborted, lastCreateTime, [])
    case Some(url) =>
      var gh := Naming.CreateGithubName(record.name);
      var steps := Pipeline(gh, url, Naming.GithubOrigin(config.githubUser, gh));
      if !Destination.IsGithubRepoEmpty(answers.query) then
        Migration(Migrated, lastCreateTime, steps)
      else
        var c := Destination.CreateGithubRepo(answers.clock, lastCreateTime, answers.createStatus, answers.postDuration);
        if !c.created then Migration(CreateFailed, c.finishedAt, [CreateRepo(gh, c.issuedAt)])
        else Migration(Migrated, c.finishedAt, [CreateRepo(gh, c.issuedAt)] + steps)
  }

  /**
   * The gate: a clone URL without '@' aborts before anything happens; creation is
   * attempted exactly when the destination reads as empty; the timestamp moves
   * only with a create call.
   */
  lemma MigrationGate(config: Config, record: Catalog.RepoRecord, lastCreateTime: int, answers: Answers)
    ensures var m := MigrationOf(config, record, lastCreateTime, answers);
            && (m.outcome == Aborted <==> '@' !in record.cloneUrl)
            && (m.outcome == Aborted ==> m.trace == [] && m.lastCreateTime == lastCreateTime)
            && (CreationAttempted(m.trace) <==> m.outcome != Aborted && Destination.IsGithubRepoEmpty(answers.query))
            && (!CreationAttempted(m.trace) ==> m.lastCreateTime == lastCreateTime)
  {
  }

  /**
   * The steps: a failed creation returns before any directory, clone or push
   * step; otherwise the fixed sequence runs to its end, whatever the steps do.
   */
  lemma MigrationSteps(config: Config, record: Catalog.RepoRecord, lastCreateTime: int, answers: Answers)
    ensures var m := MigrationOf(config, record, lastCreateTime, answers);
            && (m.outcome == CreateFailed <==> CreationAttempted(m.trace) && answers.createStatus != 201)
            && (m.outcome == CreateFailed ==> |m.trace| == 1)
            && (m.outcome == Migrated ==>
                  var gh := Naming.CreateGithubName(record.name);
                  var url := CloneUrl.SpliceCredentials(record.cloneUrl, config.bitbucketPass).value;
                  m.trace == (if CreationAttempted(m.trace) then [m.trace[0]] else [])
                             + Pipeline(gh, url, Naming.GithubOrigin(config.githubUser, gh)))
  {
    var m := MigrationOf(config, record, lastCreateTime, answers);
    if m.outcome == Migrated && !CreationAttempted(m.trace) {
      assert [] + m.trace == m.trace;
    }
  }

  /**
   * A create call is the first step, goes out at least the minimum interval
   * after `lastCreateTime`, and no later than the timestamp handed on.
   */
  lemma MigrationCreateTime(config: Config, record: Catalog.RepoRecord, lastCreateTime: int, answers: Answers)
    ensures var m := MigrationOf(config, record, lastCreateTime, answers);
            && m.lastCreateTime >= lastCreateTime
            && forall i :: 0 <= i < |m.trace| && m.trace[i].CreateRepo? ==>
                 i == 0 && lastCreateTime + Destination.MinIntervalMs <= m.trace[i].issuedAt <= m.lastCreateTime
  {
    var m := MigrationOf(config, record, lastCreateTime, answers);
    var spliced := CloneUrl.SpliceCredentials(record.cloneUrl, config.bitbucketPass);
    if spliced.Some? && Destination.IsGithubRepoEmpty(answers.query) {
      var gh := Naming.CreateGithubName(record.name);
      var steps := Pipeline(gh, spliced.value, Naming.GithubOrigin(config.githubUser, gh));
      var c := Destination.CreateGithubRepo(answers.clock, lastCreateTime, answers.createStatus, answers.postDuration);
      var head := [CreateRepo(gh, c.issuedAt)];
      assert m.lastCreateTime == c.finishedAt;
      assert m.trace == head || m.trace == head + steps;
    }
  }

  /** `migrate`: one repository, step by step. */
  method Migrate(config: Config, record: Catalog.RepoRecord, lastCreateTime: int, answers: Answers)
    returns (outcome: Outcome, newLastCreateTime: int, trace: seq<Step>)
    ensures Migration(outcome, newLastCreateTime, trace) == MigrationOf(config, record, lastCreateTime, answers)
  {
    trace := [];
    newLastCreateTime := lastCreateTime;
    var spliced := CloneUrl.SpliceCredentials(record.cloneUrl, config.bitbucketPass);
    if spliced.None? {
      return Aborted, lastCreateTime, [];
    }
    var repoCloneUrl := spliced.value;
    var gh := Naming.CreateGithubName(record.name);
    ghost var steps := Pipeline(gh, repoCloneUrl, Naming.GithubOrigin(config.githubUser, gh));
    ghost var expected := MigrationOf(config, record, lastCreateTime, answers);

    if !Destination.IsGithubRepoEmpty(answers.query) {
      // already exists and is not empty: creation is skipped
      assert expected == Migration(Migrated, lastCreateTime, steps);
    } else {
      var c := Destination.CreateGithubRepo(answers.clock, lastCreateTime, answers.createStatus, answers.postDuration);
      newLastCreateTime := c.finishedAt;
      trace := trace + [CreateRepo(gh, c.issuedAt)];
      if !c.created {
        assert expected == Migration(CreateFailed, newLastCreateTime, trace);
        return CreateFailed, newLastCreateTime, trace;
      }
      assert expected == Migration(Migrated, newLastCreateTime, trace + steps);
    }
    assert expected == Migration(Migrated, newLastCreateTime, trace + steps);

    ghost var gate := trace;
    var localPath := WorkDir(gh);
    trace := trace + [DeleteDir(localPath)];
    trace := trace + [CloneMirror(repoCloneUrl, localPath)];
    trace := trace + [RemoveLargeFiles(localPath, LargeFileLimitBytes)];
    trace := trace + [RewriteHistory(localPath)];
    trace := trace + [Lfs(localPath)];
    var githubOrigin := Naming.GithubOrigin(config.githubUser, gh);
    trace := trace + [Unarchive(gh)];
    trace := trace + [PushMirror(githubOrigin, localPath)];
    trace := trace + [Archive(gh)];
    trace := trace + [DeleteDir(localPath)];
    PipelineStepByStep(gate, gh, repoCloneUrl, githubOrigin);
    outcome := Migrated;
  }

  /** The pipeline is its steps appended one at a time. */
  lemma PipelineStepByStep(gate: seq<Step>, gh: string, cloneUrl: string, origin: string)
    ensures var path := WorkDir(gh);
            gate + [DeleteDir(path)] + [CloneMirror(cloneUrl, path)]
            + [RemoveLargeFiles(path, LargeFileLimitBytes)] + [RewriteHistory(path)] + [Lfs(path)]
            + [Unarchive(gh)] + [PushMirror(origin, path)] + [Archive(gh)] + [DeleteDir(path)]
            == gate + Pipeline(gh, cloneUrl, origin)
  {
  }

  /** One repository of the catalog with the answers its migration meets. */
  datatype Job = Job(record: Catalog.RepoRecord, answers: Answers)

  /** A whole run: the steps of every migration, the final timestamp, and whether it crashed. */
  datatype Run = Run(trace: seq<Step>, lastCreateTime: int, crashed: bool)

  /**
   * The main loop: each migration gets the timestamp the previous one returned.
   * An aborted migration raises out of the loop and ends the run.
   */
  function RunOf(config: Config, jobs: seq<Job>, lastCreateTime: int): Run
  {
    if jobs == [] then Run([], lastCreateTime, false)
    else
      var m := MigrationOf(config, jobs[0].record, lastCreateTime, jobs[0].answers);
      if m.outcome == Aborted then Run([], lastCreateTime, true)
      else
        var rest := RunOf(config, jobs[1..], m.lastCreateTime);
        Run(m.trace + rest.trace, rest.lastCreateTime, rest.crashed)
  }

  /** The `__main__` loop over the listed repositories, starting from `startTime`. */
  method MigrateAll(config: Config, jobs: seq<Job>, startTime: int) returns (trace: seq<Step>, crashed: bool)
    ensures Run(trace, RunOf(config, jobs, startTime).lastCreateTime, crashed) == RunOf(config, jobs, startTime)
  {
    hide MigrationOf;
    var lastCreateTime := startTime;
    trace := [];
    crashed := false;
    for i := 0 to |jobs|
      invariant RunOf(config, jobs, startTime)
                == var rest := RunOf(config, jobs[i..], lastCreateTime);
                   Run(trace + rest.trace, rest.lastCreateTime, rest.crashed)
    {
      var outcome, t, steps := Migrate(config, jobs[i].record, lastCreateTime, jobs[i].answers);
      RunStep(config, jobs[i..], lastCreateTime);
      assert jobs[i..][0] == jobs[i] && jobs[i..][1..] == jobs[i + 1..];
      if outcome == Aborted {
        assert trace + [] == trace;
        return trace, true;
      }
      ghost var rest := RunOf(config, jobs[i + 1..], t);
      assert trace + (steps + rest.trace) == (trace + steps) + rest.trace;
      trace := trace + steps;
      lastCreateTime := t;
    }
    assert jobs[|jobs|..] == [];
    assert trace + [] == trace;
  }

  /** One turn of the main loop. */
  lemma RunStep(config: Config, jobs: seq<Job>, lastCreateTime: int)
    requires jobs != []
    ensures var m := MigrationOf(config, jobs[0].record, lastCreateTime, jobs[0].answers);
            var rest := RunOf(config, jobs[1..], m.lastCreateTime);
            RunOf(config, jobs, lastCreateTime)
            == if m.outcome == Aborted then Run([], lastCreateTime, true)
               else Run(m.trace + rest.trace, rest.lastCreateTime, rest.crashed)
  {
  }

  /** Every create call in `trace` goes out between `lo` and `hi`. */
  predicate CreatesWithin(trace: seq<Step>, lo: int, hi: int)
  {
    forall i :: 0 <= i < |trace| && trace[i].CreateRepo? ==> lo <= trace[i].issuedAt <= hi
  }

  /** Create calls in `trace` go out in order, each the minimum interval after the one before. */
  predicate CreatesSpaced(trace: seq<Step>)
  {
    forall i, j :: 0 <= i < j < |trace| && trace[i].CreateRepo? && trace[j].CreateRepo? ==>
      trace[i].issuedAt + Destination.MinIntervalMs <= trace[j].issuedAt
  }

  lemma CreatesSpacedConcat(a: seq<Step>, b: seq<Step>, lo: int, mid: int, hi: int)
    requires forall i :: 0 <= i < |a| && a[i].CreateRepo? ==> i == 0
    requires CreatesWithin(a, lo, mid) && CreatesWithin(b, mid + Destination.MinIntervalMs, hi)
    requires CreatesSpaced(b) && lo <= mid + Destination.MinIntervalMs && mid <= hi
    ensures CreatesWithin(a + b, lo, hi) && CreatesSpaced(a + b)
  {
    var t := a + b;
    forall i | 0 <= i < |t| && t[i].CreateRepo?
      ensures lo <= t[i].issuedAt <= hi
    {
      if i >= |a| {
        assert t[i] == b[i - |a|];
      } else {
        assert t[i] == a[i];
      }
    }
    forall i, j | 0 <= i < j < |t| && t[i].CreateRepo? && t[j].CreateRepo?
      ensures t[i].issuedAt + Destination.MinIntervalMs <= t[j].issuedAt
    {
      if i >= |a| {
        assert t[i] == b[i - |a|] && t[j] == b[j - |a|];
      } else {
        assert t[i] == a[i] && t[j] == b[j - |a|];
      }
    }
  }

  /**
   * Rate limiting over a whole run: every create call goes out at least the
   * minimum interval after the start timestamp, and any two create calls are at
   * least the minimum interval apart, in trace order.
   */
  lemma {:induction false} RunCreatesSpaced(config: Config, jobs: seq<Job>, lastCreateTime: int)
    ensures var r := RunOf(config, jobs, lastCreateTime);
            && r.lastCreateTime >= lastCreateTime
            && CreatesWithin(r.trace, lastCreateTime + Destination.MinIntervalMs, r.lastCreateTime)
            && CreatesSpaced(r.trace)
  {
    hide MigrationOf;
    if jobs != [] {
      RunStep(config, jobs, lastCreateTime);
      var m := MigrationOf(config, jobs[0].record, lastCreateTime, jobs[0].answers);
      if m.outcome != Aborted {
        MigrationCreateTime(config, jobs[0].record, lastCreateTime, jobs[0].answers);
        RunCreatesSpaced(config, jobs[1..], m.lastCreateTime);
        MigrationGate(config, jobs[0].record, lastCreateTime, jobs[0].answers);
        var rest := RunOf(config, jobs[1..], m.lastCreateTime);
        CreatesSpacedConcat(m.trace, rest.trace, lastCreateTime + Destination.MinIntervalMs,
                            m.lastCreateTime, rest.lastCreateTime);
      }
    }
  }

  /**
   * A clone URL without '@' ends the run: nothing of that repository or of any
   * later one happens, and the run is that of the repositories before it.
   */
  lemma {:induction false} RunStopsAtBadUrl(config: Config, jobs: seq<Job>, lastCreateTime: int, k: nat)
    requires k < |jobs| && '@' !in jobs[k].record.cloneUrl
    requires forall i :: 0 <= i < k ==> '@' in jobs[i].record.cloneUrl
    ensures var r := RunOf(config, jobs, lastCreateTime);
            var before := RunOf(config, jobs[..k], lastCreateTime);
            r.crashed && !before.crashed && r.trace == before.trace && r.lastCreateTime == before.lastCreateTime
  {
    hide MigrationOf;
    MigrationGate(config, jobs[0].record, lastCreateTime, jobs[0].answers);
    RunStep(config, jobs, lastCreateTime);
    if k > 0 {
      var m := MigrationOf(config, jobs[0].record, lastCreateTime, jobs[0].answers);
      RunStopsAtBadUrl(config, jobs[1..], m.lastCreateTime, k - 1);
      assert jobs[..k][1..] == jobs[1..][..k - 1];
      RunStep(config, jobs[..k], lastCreateTime);
    }
  }

  /** A run over clone URLs that all hold an '@' does not crash. */
  lemma {:induction false} RunCompletes(config: Config, jobs: seq<Job>, lastCreateTime: int)
    requires forall i :: 0 <= i < |jobs| ==> '@' in jobs[i].record.cloneUrl
    ensures !RunOf(config, jobs, lastCreateTime).crashed
  {
    hide MigrationOf;
    if jobs != [] {
      MigrationGate(config, jobs[0].record, lastCreateTime, jobs[0].answers);
      RunStep(config, jobs, lastCreateTime);
      var m := MigrationOf(config, jobs[0].record, lastCreateTime, jobs[0].answers);
      RunCompletes(config, jobs[1..], m.lastCreateTime);
    }
  }

  /**
   * A push at index `j` is of a freshly prepared working directory: it was
   * deleted, cloned into, stripped of large blobs, rewritten and the repository
   * unarchived just before; the repository is archived and the directory deleted
   * just after; and the push goes to that repository's origin.
   */
  predicate PushPrepared(trace: seq<Step>, j: nat, user: string)
    requires j < |trace| && trace[j].PushMirror?
  {
    var path := trace[j].path;
    && 6 <= j && j + 2 < |trace|
    && trace[j - 1].Unarchive?
    && var gh := trace[j - 1].repo;
    && path == WorkDir(gh)
    && trace[j - 6] == DeleteDir(path)
    && trace[j - 5].CloneMirror? && trace[j - 5].path == path
    && trace[j - 4] == RemoveLargeFiles(path, LargeFileLimitBytes)
    && trace[j - 3] == RewriteHistory(path)
    && trace[j - 2] == Lfs(path)
    && trace[j].origin == Naming.GithubOrigin(user, gh)
    && trace[j + 1] == Archive(gh)
    && trace[j + 2] == DeleteDir(path)
  }

  predicate AllPushesPrepared(trace: seq<Step>, user: string)
  {
    forall j :: 0 <= j < |trace| && trace[j].PushMirror? ==> PushPrepared(trace, j, user)
  }

  /** The one push of the pipeline, after at most a create call, is of a prepared directory. */
  lemma PipelinePushesPrepared(head: seq<Step>, gh: string, cloneUrl: string, user: string)
    requires |head| <= 1 && forall i :: 0 <= i < |head| ==> head[i].CreateRepo?
    ensures AllPushesPrepared(head + Pipeline(gh, cloneUrl, Naming.GithubOrigin(user, gh)), user)
  {
    var t := head + Pipeline(gh, cloneUrl, Naming.GithubOrigin(user, gh));
    forall j | 0 <= j < |t| && t[j].PushMirror?
      ensures PushPrepared(t, j, user)
    {
      assert j == |head| + 6;
    }
  }

  /** Every push of one migration is of a freshly prepared working directory. */
  lemma MigrationPushesPrepared(config: Config, record: Catalog.RepoRecord, lastCreateTime: int, answers: Answers)
    ensures AllPushesPrepared(MigrationOf(config, record, lastCreateTime, answers).trace, config.githubUser)
  {
    var m := MigrationOf(config, record, lastCreateTime, answers);
    var spliced := CloneUrl.SpliceCredentials(record.cloneUrl, config.bitbucketPass);
    if spliced.Some? {
      var gh := Naming.CreateGithubName(record.name);
      var steps := Pipeline(gh, spliced.value, Naming.GithubOrigin(config.githubUser, gh));
      if !Destination.IsGithubRepoEmpty(answers.query) {
        assert m.trace == [] + steps;
        PipelinePushesPrepared([], gh, spliced.value, config.githubUser);
      } else {
        var c := Destination.CreateGithubRepo(answers.clock, lastCreateTime, answers.createStatus, answers.postDuration);
        var head := [CreateRepo(gh, c.issuedAt)];
        if c.created {
          assert m.trace == head + steps;
          PipelinePushesPrepared(head, gh, spliced.value, config.githubUser);
        } else {
          assert m.trace == head;
        }
      }
    }
  }

  lemma PushPreparedConcat(a: seq<Step>, b: seq<Step>, user: string)
    requires AllPushesPrepared(a, user) && AllPushesPrepared(b, user)
    ensures AllPushesPrepared(a + b, user)
  {
    var t := a + b;
    forall j | 0 <= j < |t| && t[j].PushMirror?
      ensures PushPrepared(t, j, user)
    {
      if j < |a| {
        assert t[j] == a[j];
        assert PushPrepared(a, j, user);
      } else {
        var k := j - |a|;
        assert t[j] == b[k];
        assert PushPrepared(b, k, user);
        assert t[j - 6] == b[k - 6] && t[j - 5] == b[k - 5] && t[j - 4] == b[k - 4];
        assert t[j - 3] == b[k - 3] && t[j - 2] == b[k - 2] && t[j - 1] == b[k - 1];
        assert t[j + 1] == b[k + 1] && t[j + 2] == b[k + 2];
      }
    }
  }

  /** Every push of a run is of a freshly prepared working directory (see `PushPrepared`). */
  lemma {:induction false} RunPushesPrepared(config: Config, jobs: seq<Job>, lastCreateTime: int)
    ensures AllPushesPrepared(RunOf(config, jobs, lastCreateTime).trace, config.githubUser)
  {
    hide MigrationOf;
    if jobs != [] {
      RunStep(config, jobs, lastCreateTime);
      var m := MigrationOf(config, jobs[0].record, lastCreateTime, jobs[0].answers);
      if m.outcome != Aborted {
        MigrationPushesPrepared(config, jobs[0].record, lastCreateTime, jobs[0].answers);
        RunPushesPrepared(config, jobs[1..], m.lastCreateTime);
        PushPreparedConcat(m.trace, RunOf(config, jobs[1..], m.lastCreateTime).trace, config.githubUser);
      }
    }
  }
}
