# local-dataflow-runner: count checks, run identifiers and teardown

`LocalRunner` is a command-line harness that provisions a GCS scope and a
throw-away Neo4j instance, uploads a job specification, launches the
Google-Cloud-to-Neo4j template on the Beam direct runner, waits until the
count-query checks hold or the timeout elapses (ignoring which of the two
happened), and on exit cancels the job and cleans up.

This Dafny project models the three self-contained pieces of sequential
logic in `LocalRunner.java`:

- **Count-query checks** (module `CountQueryChecks`, built on `JavaLong`):
  `CountQueryCheckConverter.convert` reads `"<expected_count>:<count_query>"`
  by splitting at the first `:` and reading the prefix with
  `Long.parseLong(prefix, 10)`; the `CountQueryCheck` record turns into a
  Neo4j query condition expecting one row `{count: expectedCount}`, and
  prints itself with `toString`.
- **Run identifier** (module `LocalRunner`): `executionId` formats
  `"local-runner-<millis>-<eight letters a..z>"`. The clock value and the
  eight random draws are parameters.
- **Teardown** (module `LocalRunner`): the fields that `run` has filled in
  when it returns or throws, `stopPipeline`'s decision whether to cancel the
  job, and `close`, which stops the pipeline before cleaning the resources.
  `JobState.FINISHING_STATES` is a predicate parameter, because the job-state
  type belongs to the launcher library.

`JavaLong` models `Long.parseLong(s, 10)` on ASCII text as a pure function.
It also gives a method, `ParseLongBounded`, that runs the same parse with
every intermediate value held in a 64-bit `long`. The method accumulates
the magnitude negatively against a limit, so that `Long.MIN_VALUE` can be
read without overflow, and it is proved to agree with the pure function on
every input. `Long.toString` / `%d` is modelled as `DecimalString`, and the
two are proved inverse on canonical text.

Four behaviours of the code are worth stating plainly:

- `close` calls `stopPipeline` with no `try`/`finally`. When `cancelJob`
  throws, `stopPipeline` rethrows it as a `RuntimeException`, and
  `cleanResources` is never reached. `Close` states this: the cleanup is
  attempted exactly when no stop failure is raised.
- `close` has no run-once guard and clears no field, so a second call would
  cancel again (`CloseIsNotGuarded`).
- The state `stopPipeline` checks is the `LaunchInfo` snapshot taken at
  launch. It is not re-queried (`CloseAfterRun`).
- The count is read with `Long.parseLong`. That accepts a leading `+` or
  `-` and leading zeros, and rejects values outside the 64-bit range.

## Model

| member | source | states |
|---|---|---|
| JavaLong.ParseLong | src/main/java/org/neo4j/dataflow/LocalRunner.java:175 | an accepted count is a non-empty run of ASCII digits with at most a leading sign; a negative value needs a leading `-`; the empty string is rejected; the result always fits in a `long` |
| JavaLong.ParseLongBounded | src/main/java/org/neo4j/dataflow/LocalRunner.java:175 | reading the count with a 64-bit accumulator, no intermediate value leaves the `long` range, and the outcome is the same as `ParseLong`'s on every input |
| JavaLong.ParseLongAccepts | src/main/java/org/neo4j/dataflow/LocalRunner.java:175 | every sign (none, `+`, `-`) followed by digits whose signed value fits in a `long` is accepted with that value |
| JavaLong.ParseLongRejectsEmpty | src/main/java/org/neo4j/dataflow/LocalRunner.java:175 | the empty count is a number-format error |
| JavaLong.ParseLongRejectsBareSign | src/main/java/org/neo4j/dataflow/LocalRunner.java:175 | a lone `+` or `-` is a number-format error |
| JavaLong.ParseLongRejectsNonDigit | src/main/java/org/neo4j/dataflow/LocalRunner.java:175 | any character that is not a digit, other than a sign in first position, makes the count a number-format error |
| JavaLong.ParseLongRejectsOutOfRange | src/main/java/org/neo4j/dataflow/LocalRunner.java:175 | well-formed digits whose signed value is below -2^63 or above 2^63-1 are a number-format error |
| JavaLong.DecimalString | src/main/java/org/neo4j/dataflow/LocalRunner.java:131 | the printed form of a `long` is a `-` exactly for negative values followed by canonical digits, with no other characters |
| JavaLong.ParseDecimalString | src/main/java/org/neo4j/dataflow/LocalRunner.java:175 | reading back the printed form of any `long` gives that `long` |
| JavaLong.CanonicalDigitsRoundTrip | src/main/java/org/neo4j/dataflow/LocalRunner.java:131 | digits without superfluous leading zeros are exactly what is printed for their value |
| JavaLong.DecimalStringOfParse | src/main/java/org/neo4j/dataflow/LocalRunner.java:175 | a count written without `+`, without superfluous zeros and not as `-0` prints back as the same text once read |
| CountQueryChecks.IndexOf | src/main/java/org/neo4j/dataflow/LocalRunner.java:171 | the result is -1 exactly when `:` is absent, and otherwise the position of a `:` with none before it |
| CountQueryChecks.IndexOfIsFirst | src/main/java/org/neo4j/dataflow/LocalRunner.java:171 | the first occurrence is the only candidate: a position holding the character with none before it is the index found |
| CountQueryChecks.Convert | src/main/java/org/neo4j/dataflow/LocalRunner.java:170-178 | input with no `:` is rejected with the usage message and exactly such input; on success the query is the suffix after a `:` with no `:` before it, and the count is the parse of the text before; a number-format failure carries that colon-free prefix |
| CountQueryChecks.ConvertSplitsAtFirstColon | src/main/java/org/neo4j/dataflow/LocalRunner.java:171-176 | for a colon-free prefix, the result depends only on parsing the prefix, and the query is everything after the first `:`, further colons included |
| CountQueryChecks.ConvertRoundTrip | src/main/java/org/neo4j/dataflow/LocalRunner.java:175-177 | for every `long` n and query q, converting the printed n, a `:` and q yields count n and query q |
| CountQueryChecks.ConvertRejectsEmptyCount | src/main/java/org/neo4j/dataflow/LocalRunner.java:175 | an empty count such as `":RETURN 1"` fails instead of producing a check |
| CountQueryChecks.ConvertRejectsNonDigitCount | src/main/java/org/neo4j/dataflow/LocalRunner.java:175 | a count with a non-digit character (other than a leading sign) fails |
| CountQueryChecks.ConvertRejectsOutOfRangeCount | src/main/java/org/neo4j/dataflow/LocalRunner.java:175 | a count outside the 64-bit range fails |
| CountQueryChecks.ConvertRejectsUnparsableCount | src/main/java/org/neo4j/dataflow/LocalRunner.java:175 | whenever the text before the first `:` is not a `long`, the conversion fails with that text and no check is produced |
| CountQueryChecks.AsRunnableCondition | src/main/java/org/neo4j/dataflow/LocalRunner.java:183-188 | the condition keeps the record's query unchanged and expects exactly one row, whose only key `count` maps to the expected count |
| CountQueryChecks.CountConditionPassesIff | src/main/java/org/neo4j/dataflow/LocalRunner.java:186 | the condition holds for a query result exactly when it is one row with the single column `count` equal to the expected count |
| CountQueryChecks.RunnableConditionDeterminesCheck | src/main/java/org/neo4j/dataflow/LocalRunner.java:184-186 | distinct count-query checks never produce the same condition |
| CountQueryChecks.ToString | src/main/java/org/neo4j/dataflow/LocalRunner.java:191-197 | the text starts with `CountQueryCheck{expectedCount=` and ends with `'}` |
| CountQueryChecks.ToStringInjective | src/main/java/org/neo4j/dataflow/LocalRunner.java:192-196 | the printed text identifies the record, even when the query holds commas or quotes |
| LocalRunner.Suffix | src/main/java/org/neo4j/dataflow/LocalRunner.java:127-130 | the suffix has eight characters, each in `a`..`z` |
| LocalRunner.SuffixInjective | src/main/java/org/neo4j/dataflow/LocalRunner.java:127-130 | different draws give different suffixes |
| LocalRunner.ExecutionId | src/main/java/org/neo4j/dataflow/LocalRunner.java:126-132 | the identifier is `local-runner-`, then the canonical decimal form of the clock value, then `-`, then eight letters in `a`..`z` |
| LocalRunner.ExecutionIdRoundTrip | src/main/java/org/neo4j/dataflow/LocalRunner.java:131 | the clock value and the suffix can both be read back from the identifier |
| LocalRunner.ExecutionIdInjective | src/main/java/org/neo4j/dataflow/LocalRunner.java:127-131 | two runs share an identifier only if they read the same clock value and drew the same letters |
| LocalRunner.Run | src/main/java/org/neo4j/dataflow/LocalRunner.java:64-74 | fields are filled in order (GCS, Neo4j, launcher, launch record); each is set exactly when its step and all earlier ones returned, so a step that throws leaves its field and all later ones null; the Neo4j instance is named by the run identifier with the fixed admin password; the launch record is the launcher's answer |
| LocalRunner.StopPipeline | src/main/java/org/neo4j/dataflow/LocalRunner.java:104-116 | no cancel exactly when the launcher or launch record is missing or the recorded state is finishing; otherwise one cancel with the recorded project, region and job id |
| LocalRunner.Close | src/main/java/org/neo4j/dataflow/LocalRunner.java:76-80 | a cancel is attempted exactly when `stopPipeline` decides so, and always before the cleanup; an undelivered cancel raises `Unable to stop job <id>` and the cleanup is then skipped, otherwise the cleanup is attempted and its own failure is what escapes; the runner is left unchanged |
| LocalRunner.CloseBeforeRun | src/main/java/org/neo4j/dataflow/LocalRunner.java:77-79 | closing a runner that never ran cancels nothing and cleans up two null managers, failing only if that cleanup throws |
| LocalRunner.CloseAfterRun | src/main/java/org/neo4j/dataflow/LocalRunner.java:64-80 | after any run, with the cancel delivered and the cleanup returning, close cancels exactly when the launch succeeded and the launch-time state is not finishing, naming the launched job, and then cleans up the resources created before any failure |
| LocalRunner.CloseIsNotGuarded | src/main/java/org/neo4j/dataflow/LocalRunner.java:76-80 | a second close makes the same decision and issues the same cancel again |

## Left out

- Credential loading (`credentials`): an external call; its failure is only the `LoadCredentials` step of `Run`.
- Construction of the GCS and Neo4j resource managers, and `ResourceManagerUtils.cleanResources`: calls into libraries outside this model. Cleanup is an effect carrying the two managers, which may be null.
- `uploadTemplateInputs`, `localConnectionMetadata` and the JSON template: file and network I/O, and unescaped text formatting with no stated contract. Upload appears only as the `UploadInputs` step that can throw.
- `startPipeline`'s launch configuration and `DirectRunnerClient.launch`: the launcher is an input. Its answer is the `launched` parameter of `Run`.
- The `cancelJob` transport and `cleanResources`: `Close` takes only whether each call returns (`delivered`, `cleaned`).
- `waitUntilDone` and `PipelineOperator.waitForCondition`: the polling loop, timeouts and sleeping belong to a library outside this model. `waitUntilDone` discards the result of the wait, so a run whose checks never hold returns normally once the timeout elapses. Only the `WaitUntilDone` step, which can throw, appears.
- The `Neo4jResourceManager` argument of `asRunnableCondition`: it only tells the condition which database to query. `QueryCheck` keeps the query and the expected rows, not the target.
- CountQueryChecks.CountConditionPassesIff: the comparison of query results is done inside `Neo4jQueryCheck`, which is outside this model. `Satisfied` assumes it is exact equality of the returned rows with the expected rows.
- `main`, the shutdown hook and `System.exit`: process lifecycle. A close that runs concurrently with `run` is not modelled.
- Picocli option binding, the `Duration` defaults and the `HashSet` that collects the checks: argument parsing.
- `Random` and `System.currentTimeMillis`: they are parameters (`draws`, `millis`).
- JavaLong.ParseLong: non-ASCII Unicode digits, which `Long.parseLong` also accepts, are rejected here. The `NumberFormatException` message text is not modelled; the error carries the offending text instead.
- JavaLong.DecimalString: `String.format` uses the default locale, and a locale with other digits is not modelled; ASCII digits are assumed.
- The job-state enumeration: `finishing` is a predicate parameter standing for `JobState.FINISHING_STATES`.
