/** The `LocalRunner` command: the run identifier it gives the Neo4j
    instance, the fields `run` fills in as it goes, and `close`, which
    cancels the launched job if it may still be running and then cleans up
    the GCS and Neo4j resources. External calls (credentials, resource
    managers, the launcher, the clock and the random generator) are inputs. */
module LocalRunner {
  import opened Wrappers
  import opened JavaLong

  // ---------------------------------------------------------------------
  // executionId
  // ---------------------------------------------------------------------

  const ExecutionIdPrefix: string := "local-runner-"
  const SuffixLength: nat := 8

  predicate IsLowerLetter(c: char) {
    'a' <= c <= 'z'
  }

  /** The eight code points taken from `new Random().ints('a', 'z' + 1)`:
      each lies in the origin-inclusive, bound-exclusive range. */
  predicate ValidDraws(draws: seq<int>) {
    |draws| == SuffixLength && forall i | 0 <= i < |draws| :: 'a' as int <= draws[i] < 'z' as int + 1
  }

  /** The suffix built by appending each drawn code point. */
  function Suffix(draws: seq<int>): (s: string)
    requires ValidDraws(draws)
    ensures |s| == SuffixLength
    ensures forall i | 0 <= i < |s| :: IsLowerLetter(s[i])
  {
    seq(|draws|, i requires 0 <= i < |draws| => draws[i] as char)
  }

  lemma SuffixInjective(a: seq<int>, b: seq<int>)
    requires ValidDraws(a) && ValidDraws(b)
    requires Suffix(a) == Suffix(b)
    ensures a == b
  {
    forall i | 0 <= i < |a|
      ensures a[i] == b[i]
    {
      assert Suffix(a)[i] == Suffix(b)[i];
    }
  }

  /** `executionId`: `String.format("local-runner-%d-%s", millis, suffix)`. */
  function ExecutionId(millis: int64, draws: seq<int>): (id: string)
    requires ValidDraws(draws)
    ensures |id| >= |ExecutionIdPrefix| + 2 + SuffixLength
    ensures id[..|ExecutionIdPrefix|] == ExecutionIdPrefix
    ensures id[|id| - SuffixLength - 1] == '-'
    ensures id[|ExecutionIdPrefix|..|id| - SuffixLength - 1] == DecimalString(millis)
    ensures id[|id| - SuffixLength..] == Suffix(draws)
    ensures forall i | |id| - SuffixLength <= i < |id| :: IsLowerLetter(id[i])
  {
    var digits := DecimalString(millis);
    var suffix := Suffix(draws);
    var id := ExecutionIdPrefix + digits + "-" + suffix;
    assert id[..|ExecutionIdPrefix|] == ExecutionIdPrefix;
    assert id[|ExecutionIdPrefix|..|id| - SuffixLength - 1] == digits;
    assert id[|id| - SuffixLength..] == suffix;
    id
  }

  /** Reads an identifier of the shape `executionId` produces back into
      its clock value and suffix. */
  function ParseExecutionId(id: string): Option<(int64, string)> {
    var head := |ExecutionIdPrefix|;
    if |id| < head + 2 + SuffixLength || id[..head] != ExecutionIdPrefix || id[|id| - SuffixLength - 1] != '-' then
      None
    else
      match ParseLong(id[head..|id| - SuffixLength - 1])
      case None => None
      case Some(millis) => Some((millis, id[|id| - SuffixLength..]))
  }

  /** The identifier keeps both of its ingredients recoverable: the clock
      value and the random suffix can be read back from it. */
  lemma ExecutionIdRoundTrip(millis: int64, draws: seq<int>)
    requires ValidDraws(draws)
    ensures ParseExecutionId(ExecutionId(millis, draws)) == Some((millis, Suffix(draws)))
  {
    var id := ExecutionId(millis, draws);
    var digits := DecimalString(millis);
    var head := |ExecutionIdPrefix|;
    assert id == ExecutionIdPrefix + digits + "-" + Suffix(draws);
    assert id[head..|id| - SuffixLength - 1] == digits;
    assert id[|id| - SuffixLength..] == Suffix(draws);
    ParseDecimalString(millis);
  }

  /** Two runs get the same Neo4j identifier only if they read the same
      clock value and drew the same eight letters. */
  lemma ExecutionIdInjective(m1: int64, d1: seq<int>, m2: int64, d2: seq<int>)
    requires ValidDraws(d1) && ValidDraws(d2)
    requires ExecutionId(m1, d1) == ExecutionId(m2, d2)
    ensures m1 == m2 && d1 == d2
  {
    ExecutionIdRoundTrip(m1, d1);
    ExecutionIdRoundTrip(m2, d2);
    SuffixInjective(d1, d2);
  }

  // ---------------------------------------------------------------------
  // Runner state
  // ---------------------------------------------------------------------

  /** `LaunchInfo` as returned by the launcher; `S` is the launcher's job-state type. */
  datatype LaunchInfo<S> = LaunchInfo(projectId: string, region: string, jobId: string, state: S)

  /** The GCS resource manager: the bucket and the test class name it scopes artifacts under. */
  datatype GcsResources = GcsResources(bucket: string, testClassName: string)

  /** The Neo4j resource manager: the run identifier and the admin password. */
  datatype Neo4jResources = Neo4jResources(testId: string, adminPassword: string)

  /** The launcher built in `startPipeline`. */
  datatype Launcher = DirectRunnerClient

  /** The four fields of `LocalRunner` that `close` reads; `None` is Java's `null`. */
  datatype Runner<S> = Runner(
    gcs: Option<GcsResources>,
    neo4j: Option<Neo4jResources>,
    launcher: Option<Launcher>,
    execution: Option<LaunchInfo<S>>)

  const TestClassName: string := "LocalRunner"
  const AdminPassword: string := "letmein!"

  /** A runner as constructed, before `run`. */
  function NewRunner<S>(): Runner<S> {
    Runner(None, None, None, None)
  }

  /** The steps of `run`, in order. */
  datatype Step = LoadCredentials | BuildGcs | BuildNeo4j | UploadInputs | BuildLauncher | Launch | WaitUntilDone

  function StepIndex(s: Step): nat {
    match s
    case LoadCredentials => 0
    case BuildGcs => 1
    case BuildNeo4j => 2
    case UploadInputs => 3
    case BuildLauncher => 4
    case Launch => 5
    case WaitUntilDone => 6
  }

  /** Whether `step` completed, when the run threw at `failedAt` (or did not throw). */
  predicate Completed(step: Step, failedAt: Option<Step>) {
    failedAt.None? || StepIndex(step) < StepIndex(failedAt.value)
  }

  /** The runner's fields once `run` has returned, or has thrown at the
      step `failedAt`. Each field is assigned only after the call that
      produces it returns, so a failure leaves it, and every later one, null. */
  function Run<S>(bucket: string, millis: int64, draws: seq<int>, launched: LaunchInfo<S>, failedAt: Option<Step>): (r: Runner<S>)
    requires ValidDraws(draws)
    ensures r.execution.Some? ==> r.launcher.Some?
    ensures r.launcher.Some? ==> r.neo4j.Some?
    ensures r.neo4j.Some? ==> r.gcs.Some?
    ensures r.gcs.Some? <==> failedAt != Some(LoadCredentials) && failedAt != Some(BuildGcs)
    ensures r.neo4j.Some? <==> r.gcs.Some? && failedAt != Some(BuildNeo4j)
    ensures r.launcher.Some? <==> r.neo4j.Some? && failedAt != Some(UploadInputs) && failedAt != Some(BuildLauncher)
    ensures r.execution.Some? <==> failedAt.None? || failedAt == Some(WaitUntilDone)
    ensures r.gcs.Some? ==> r.gcs.value == GcsResources(bucket, TestClassName)
    ensures r.neo4j.Some? ==> r.neo4j.value.testId == ExecutionId(millis, draws) && r.neo4j.value.adminPassword == AdminPassword
    ensures r.execution.Some? ==> r.execution.value == launched
  {
    var gcs := GcsResources(bucket, TestClassName);
    var neo4j := Neo4jResources(ExecutionId(millis, draws), AdminPassword);
    match failedAt
    case Some(LoadCredentials) => Runner(None, None, None, None)
    case Some(BuildGcs) => Runner(None, None, None, None)
    case Some(BuildNeo4j) => Runner(Some(gcs), None, None, None)
    case Some(UploadInputs) => Runner(Some(gcs), Some(neo4j), None, None)
    case Some(BuildLauncher) => Runner(Some(gcs), Some(neo4j), None, None)
    case Some(Launch) => Runner(Some(gcs), Some(neo4j), Some(DirectRunnerClient), None)
    case Some(WaitUntilDone) => Runner(Some(gcs), Some(neo4j), Some(DirectRunnerClient), Some(launched))
    case None => Runner(Some(gcs), Some(neo4j), Some(DirectRunnerClient), Some(launched))
  }

  // ---------------------------------------------------------------------
  // stopPipeline and close
  // ---------------------------------------------------------------------

  /** The arguments of `launcher.cancelJob`. */
  datatype CancelRequest = CancelRequest(projectId: string, region: string, jobId: string)

  /** `stopPipeline`'s decision: no cancel without a launcher or a launch
      record, none when the recorded state is a finishing one, otherwise
      one cancel of the recorded job. `finishing` stands for
      `JobState.FINISHING_STATES`. */
  function StopPipeline<S>(r: Runner<S>, finishing: S -> bool): (c: Option<CancelRequest>)
    ensures c.None? <==> r.launcher.None? || r.execution.None? || finishing(r.execution.value.state)
    ensures c.Some? ==>
      && c.value.projectId == r.execution.value.projectId
      && c.value.region == r.execution.value.region
      && c.value.jobId == r.execution.value.jobId
  {
    if r.launcher.None? || r.execution.None? then None
    else if finishing(r.execution.value.state) then None
    else
      var e := r.execution.value;
      Some(CancelRequest(e.projectId, e.region, e.jobId))
  }

  /** What `close` does to the outside world, in order. */
  datatype Effect =
    | CancelJob(request: CancelRequest)
    | CleanResources(gcs: Option<GcsResources>, neo4j: Option<Neo4jResources>)

  /** The exception `close` lets escape: the one `stopPipeline` throws
      when `cancelJob` fails, or one thrown by the cleanup. */
  datatype CloseError = StopFailed(message: string) | CleanupFailed

  /** The outcome of `close`: its effects, the exception it throws if any,
      and the runner afterwards. */
  datatype Teardown<S> = Teardown(effects: seq<Effect>, error: Option<CloseError>, after: Runner<S>)

  /** The message of the exception thrown when `cancelJob` fails. */
  function StopFailure(jobId: string): string {
    "Unable to stop job " + jobId
  }

  /** `close`: stop the pipeline, then clean the resources. `delivered`
      says whether the `cancelJob` call returns or throws an `IOException`;
      in the latter case `stopPipeline` rethrows and the cleanup is never
      reached. `cleaned` says whether `cleanResources` returns or throws.
      No field is cleared and no flag is set. */
  function Close<S>(r: Runner<S>, finishing: S -> bool, delivered: bool, cleaned: bool): (t: Teardown<S>)
    ensures 1 <= |t.effects| <= 2
    ensures (exists i | 0 <= i < |t.effects| :: t.effects[i].CancelJob?) <==> StopPipeline(r, finishing).Some?
    ensures forall i | 0 <= i < |t.effects| && t.effects[i].CancelJob? :: t.effects[i].request == StopPipeline(r, finishing).value
    ensures forall i, j | 0 <= i < j < |t.effects| :: t.effects[i].CancelJob? && t.effects[j].CleanResources?
    ensures CleanResources(r.gcs, r.neo4j) in t.effects <==> !(StopPipeline(r, finishing).Some? && !delivered)
    ensures (t.error.Some? && t.error.value.StopFailed?) <==> StopPipeline(r, finishing).Some? && !delivered
    ensures t.error.Some? && t.error.value.StopFailed? ==> t.error.value.message == StopFailure(r.execution.value.jobId)
    ensures t.error == Some(CleanupFailed) <==> CleanResources(r.gcs, r.neo4j) in t.effects && !cleaned
    ensures forall i | 0 <= i < |t.effects| && t.effects[i].CleanResources? :: t.effects[i] == CleanResources(r.gcs, r.neo4j)
    ensures StopPipeline(r, finishing).Some? && !delivered ==> t.effects == [CancelJob(StopPipeline(r, finishing).value)]
    ensures t.after == r
  {
    var cleanup := Teardown([CleanResources(r.gcs, r.neo4j)], if cleaned then None else Some(CleanupFailed), r);
    match StopPipeline(r, finishing)
    case None => cleanup
    case Some(request) =>
      var t := if delivered then cleanup.(effects := [CancelJob(request)] + cleanup.effects)
               else Teardown([CancelJob(request)], Some(StopFailed(StopFailure(request.jobId))), r);
      assert t.effects[0].CancelJob?;
      t
  }

  /** Closing a runner that never ran cancels nothing and cleans up two
      null resource managers. */
  lemma CloseBeforeRun<S>(finishing: S -> bool, delivered: bool, cleaned: bool)
    ensures Close(NewRunner<S>(), finishing, delivered, cleaned).effects == [CleanResources(None, None)]
    ensures Close(NewRunner<S>(), finishing, delivered, cleaned).error.None? <==> cleaned
  {
  }

  /** With the cancel delivered and the cleanup returning, `close` issues
      the cancel `stopPipeline` decides on, if any, then the cleanup. */
  lemma CloseDelivered<S>(r: Runner<S>, finishing: S -> bool)
    ensures Close(r, finishing, true, true) == Teardown(
      if StopPipeline(r, finishing).Some? then [CancelJob(StopPipeline(r, finishing).value), CleanResources(r.gcs, r.neo4j)]
      else [CleanResources(r.gcs, r.neo4j)],
      None, r)
  {
  }

  /** After `run`, with the cancel delivered and the cleanup returning, `close` cancels exactly when the launch succeeded and the
      state recorded at launch is not a finishing one; that snapshot is
      never refreshed, so a job that has since finished is cancelled all
      the same. The cancel names the launched job, and the cleanup covers
      whatever resources were created before the failure. */
  lemma CloseAfterRun<S>(bucket: string, millis: int64, draws: seq<int>, launched: LaunchInfo<S>,
                         failedAt: Option<Step>, finishing: S -> bool)
    requires ValidDraws(draws)
    ensures var t := Close(Run(bucket, millis, draws, launched, failedAt), finishing, true, true);
      && t.error.None?
      && (if (failedAt.None? || failedAt == Some(WaitUntilDone)) && !finishing(launched.state) then
            t.effects[0] == CancelJob(CancelRequest(launched.projectId, launched.region, launched.jobId))
            && |t.effects| == 2
          else
            |t.effects| == 1)
      && t.effects[|t.effects| - 1] == CleanResources(
           if Completed(BuildGcs, failedAt) then Some(GcsResources(bucket, TestClassName)) else None,
           if Completed(BuildNeo4j, failedAt) then Some(Neo4jResources(ExecutionId(millis, draws), AdminPassword)) else None)
  {
    var r := Run(bucket, millis, draws, launched, failedAt);
    assert r.gcs.Some? <==> Completed(BuildGcs, failedAt);
    assert r.neo4j.Some? <==> Completed(BuildNeo4j, failedAt);
    assert StopPipeline(r, finishing).Some? <==> (failedAt.None? || failedAt == Some(WaitUntilDone)) && !finishing(launched.state);
    CloseDelivered(r, finishing);
  }

  /** `close` has no run-once guard: it leaves the runner as it found it,
      so a hypothetical second call would make the same decision and issue
      the same cancel again. The program itself calls it once, from the
      shutdown hook. */
  lemma CloseIsNotGuarded<S>(r: Runner<S>, finishing: S -> bool)
    requires StopPipeline(r, finishing).Some?
    ensures var first := Close(r, finishing, true, true);
      var second := Close(first.after, finishing, true, true);
      && first.effects[0] == second.effects[0] == CancelJob(StopPipeline(r, finishing).value)
      && second.effects == first.effects
  {
  }
}
