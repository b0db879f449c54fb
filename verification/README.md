# Job scheduler core: the job state machine

This project models the scheduling core of a pull-based distributed job
scheduler. Clients submit jobs, workers poll for them and report outcomes,
and a periodic sweeper reclaims jobs whose worker vanished. The core is
`JobRepository` (app/repository.py) acting on the `Job` row (app/models.py).
It has five operations: create, get, claim the next job, complete a job,
and sweep timed-out jobs.

The job table is a `map<JobId, Job>` of immutable `Job` values. Each
operation is one atomic whole-store update. The clock is an integer `now`
passed in by the caller, and the fresh primary key of a new job is
supplied by the caller too.

Modules, one per concern:

- `Options` (options.dfy): nullable values.
- `Decimal` (decimal.dfy): Python's `str(int)`, needed for the sweeper's error text, with a proof that reading the digits back gives the number.
- `Models` (models.dfy): `JobState`, `Job`, the column defaults, and the per-row invariant `JobInv`.
- `RetryPolicy` (retry_policy.dfy): the retry-vs-exhaust rule, `ApplyFailure`. Both the failure branch of `complete_job` and the sweeper use it.
- `Repository` (repository.dfy): the five operations. The claim is modelled in both of its branches, the row-locking one and the compare-and-set one, and the compare-and-set race is an explicit case. The sweep is given twice: as one atomic update, and as the source's row-by-row loop, which is proved to give the same result.
- `Transitions` (transitions.dfy): the operations as a transition system. It proves that the invariant holds along every run, that attempts count claims exactly, that the retry budget bounds claims, and that a running job keeps its worker.
- `Findings` (findings.dfy): a looseness of `complete_job` and its correction.

Some expectations a reader might bring to a job scheduler do not hold of this code, and the model follows the code:

- One might expect the worker and start time to be set exactly while a job is RUNNING. The code does not clear `assigned_worker_id` or `started_at` on a terminal transition, so only "RUNNING implies both set" and "PENDING implies both unset" hold.
- One might expect a claim that loses the compare-and-set race to try the next candidate. The code returns nothing instead.
- One might expect COMPLETED and FAILED to be final states. In the code they are not (see Findings). A requeued COMPLETED job also keeps its old `completed_at`, which a later terminal transition overwrites.
- One might expect `updated_at` to move on every call. The ORM's `onupdate` hook refreshes it only when some column changed (`Repository.Commit`), so a failure report on a PENDING job that repeats its last error changes nothing.

## Model

| member | source | states |
|---|---|---|
| Models.NewJob | app/models.py:26-99 | A created job is PENDING with attempts 0 and a budget of 2. It has no worker, start time, completion time or error. created_at and updated_at are both `now`. Absent fields default to "sleep", {} and 5. The new job satisfies the row invariant. |
| Repository.Commit | app/models.py:94-99 | Committing changes nothing but `updated_at`. `updated_at` moves to `now` exactly when some column changed, and an unchanged row is left as it was. |
| Repository.CreateJob | app/repository.py:16-20 | Inserts exactly one new row, under the fresh id, and leaves every existing row as it was. It keeps the store invariant, and the priority must lie in 1..10. |
| Repository.GetJob | app/repository.py:22-23 | An unknown id gives nothing; a known id gives its row, whose primary key is that id. |
| Repository.GetAfterCreate | app/repository.py:16-23 | Looking up a created job returns exactly the created row, and lookups of every other id are unaffected. |
| Repository.SelectCandidate | app/repository.py:36-45 | Returns nothing iff no row is PENDING. Otherwise it returns a PENDING row that no other PENDING row beats: none has a higher priority, or the same priority and an earlier created_at. |
| Repository.CandidatesAreTied | app/repository.py:55-60 | Any two rows the selection may return agree on priority and created_at, so the ordering leaves no other freedom. |
| Repository.ClaimedJob | app/repository.py:46-49 | A claimed row is RUNNING for the worker since `now`, with attempts up by exactly one. Payload, priority, budget, last_error and completed_at are unchanged, and a PENDING row that satisfied the invariant still does. |
| Repository.CompareAndSet | app/repository.py:65-79 | The conditional update succeeds iff the row is still PENDING at update time. On failure the store is unchanged, so attempts is not incremented. On success only that row changes. |
| Repository.ClaimCompareAndSet | app/repository.py:54-83 | The candidate is the best PENDING row of the store the selection saw. A lost race returns nothing and leaves the store unchanged; the next candidate is not tried. |
| Repository.ClaimNextJob | app/repository.py:25-83 | In either dialect branch: returns nothing with the store unchanged iff no row is PENDING. Otherwise it claims the best PENDING row and changes no other row, keeping the invariant. |
| Repository.CompareAndSetRaceHasOneWinner | app/repository.py:65-79 | When two callers race for the same PENDING row, the first update wins and the second changes nothing. Attempts goes up once, for the winner's worker. |
| Repository.CompleteJob | app/repository.py:85-108 | An unknown id gives nothing and changes nothing. A success gives COMPLETED with completed_at `now`, clears last_error, keeps attempts, worker and start time, and refreshes updated_at (`ApplySuccess` then `Commit`). A failure applies the shared rule `ApplyFailure` with the reported message. Only that row changes, and the invariant is kept. |
| RetryPolicy.FailureMessage | app/repository.py:96 | The recorded failure text is never empty. A non-empty report is kept verbatim, and a missing or empty one becomes "Job failed". |
| RetryPolicy.ApplyFailure | app/repository.py:95-104 | Records the reason. While attempts < max_attempts, the job is PENDING with worker and start time cleared and attempts kept. Otherwise it is FAILED with completed_at `now`. The invariant is kept. |
| RetryPolicy.ExhaustedFailureIsPermanent | app/repository.py:97-104 | With the budget spent, a failure gives FAILED, and so does every further failure. |
| RetryPolicy.ApplySuccess | app/repository.py:91-94 | A success is COMPLETED with completed_at `now` and no error. Attempts and worker are left alone, and the invariant is kept. |
| RetryPolicy.TimeoutMessageNamesThreshold | app/repository.py:122 | The sweeper's error text determines the threshold: different thresholds give different messages. |
| Repository.Reclaim | app/repository.py:121-130 | An overdue row goes through the same rule `ApplyFailure` as a failure report, with the timeout message. It always leaves RUNNING, and updated_at becomes `now`. |
| Repository.SweepTimeouts | app/repository.py:110-137 | Exactly the RUNNING rows with a start time strictly before `now - timeout` are reclaimed, and every other row is untouched. The count is the number of reclaimed rows. The count is 0 iff the store is unchanged. The invariant is kept. |
| Repository.SweepTimeoutsByScan | app/repository.py:114-137 | The row-by-row loop with its count, committing only when something was reclaimed, ends in the same count and store as the atomic sweep. |
| Repository.ReclaimEach | app/repository.py:120-131 | The loop over the selected rows reclaims each selected row once, leaves every other row alone, and counts exactly the selected rows. |
| Transitions.StepPreservesInv | app/repository.py:16-137 | Every call of every operation keeps the invariant: PENDING implies attempts < max_attempts and no worker or start time; RUNNING implies both set; attempts ≤ max_attempts. No row disappears, and id, submitted fields, budget and created_at never change. |
| Transitions.RunPreservesInv | app/repository.py:16-137 | Along any run of operations from a store satisfying the invariant, the empty store included, every state satisfies it. |
| Transitions.StepCountsAttempts | app/repository.py:46-49 | Attempts grows by exactly one when a row goes from PENDING to RUNNING, and no operation changes it otherwise. |
| Transitions.AttemptsCountClaims | app/repository.py:46-49 | Over a whole run, a row's attempts grows by exactly the number of times it was claimed. |
| Transitions.ClaimedAtMostMaxAttempts | app/repository.py:97-101 | A job created with attempts 0 is claimed at most max_attempts times in any run. |
| Transitions.RunningJobKeepsWorker | app/repository.py:65-79 | A RUNNING row that is still RUNNING after any operation keeps its worker and start time, so no operation hands a running job to a second worker. |
| Transitions.ClaimOrderScenario | app/repository.py:55-59 | Jobs of priorities 3, 9 and 5 are claimed in the order 9, 5, 3. |
| Transitions.RetryScenario | app/repository.py:95-104 | With the default budget: fail once and the job is PENDING with 1 attempt; claim again and it has 2; fail again and it is FAILED with the second message and a completion time. |
| Findings.CompleteJobRevivesFailedJob | app/repository.py:85-94 | As written: a success report turns a FAILED job into COMPLETED. |
| Findings.CompleteJobRequeuesCompletedJob | app/repository.py:95-101 | As written: a failure report requeues a COMPLETED job that has budget left. |
| Findings.TerminalStateIsLeft | app/repository.py:85-108 | As written: there is a valid store in which one completion call moves a FAILED row to COMPLETED. |
| Findings.CompleteRunningJob | app/repository.py:85-108 | Corrected completion. Unknown ids and rows not RUNNING are rejected with the store unchanged. A RUNNING row is completed exactly as `complete_job` does it. |
| Findings.CorrectedRunKeepsTerminal | app/repository.py:85-108 | With the corrected completion, any run keeps the invariant and never changes a COMPLETED or FAILED row again. |

## Left out

- Lock-and-skip concurrency (`FOR UPDATE SKIP LOCKED`), commit, rollback and refresh: each operation is one atomic store update. Real interleaving is represented only by the compare-and-set race: the selection's store and the update's store are separate parameters of `Repository.ClaimCompareAndSet`, and `Transitions.Op.LostClaimRace` is a step that changes nothing.
- The choice among rows equal in both priority and created_at: SQL's `LIMIT 1` picks any of them, and so does `Repository.SelectCandidate`. `Repository.CandidatesAreTied` bounds that freedom.
- Wall-clock time: each `utcnow()` call of one operation is the same integer `now`. The source reads the clock separately for `started_at` and for `onupdate`.
- UUID generation: the caller supplies an id not yet in the store. Generated ids are never empty, so the compare-and-set branch's `if not job_id` test, which would treat an empty id as no candidate, is modelled as a test for no candidate only.
- Repository.CreateJob: does not model the error for an over-long column. On PostgreSQL the columns `id`, `job_type` and `assigned_worker_id` are VARCHAR(36), VARCHAR(50) and VARCHAR(64) (app/models.py:26-36, 68-71), so inserting a `job_type` longer than 50 characters raises at commit and nothing is inserted. SQLite does not enforce these lengths. The model has unbounded strings and always inserts.
- Repository.ClaimNextJob: does not model the same error on the claim. On PostgreSQL a `worker_id` longer than 64 characters makes the commit raise (app/repository.py:47-50), and the row stays PENDING. The model always claims.
- Repository.SweepTimeouts: does not model the OverflowError of `now - timedelta(seconds=timeout_seconds)` (app/repository.py:115) when the cutoff falls outside the range of Python's datetime. Integer time is unbounded, so the model always returns a count.
- Payload contents: opaque string-keyed values, passed through unchanged.
- An explicit `None` passed for a column that has a default: the model treats it as an absent argument.
- The worker process (worker.py): HTTP polling, sleeping, handler dispatch and network retry are an external process.
- The FastAPI application and the sweeper thread (app/main.py): only the single `sweep_timeouts` call it makes is modelled. The thread, its sleep interval and its swallowing of exceptions are not.
- The HTTP routers: they map a missing job to 404 and a missing claim to 204, which is the `None` result of the modelled operations.
- Request validation (app/schemas.py): only the priority bound 1..10 is kept, as a precondition of `Repository.CreateJob`.
- Configuration (app/config.py): the timeout threshold is a parameter of the sweep, not its default of 30 seconds.
- That every state is one of PENDING, RUNNING, COMPLETED and FAILED: the `JobState` datatype already guarantees it.

## Findings

| source | as written | input that shows it | evidently intended | confidence | as-written member | corrected member |
|---|---|---|---|---|---|---|
| app/repository.py:85-108 | `complete_job` applies a report whatever the job's state | A FAILED job (attempts = max_attempts = 2) and `complete_job(id, success=True)`: the job becomes COMPLETED. A stale report from a worker whose job was reclaimed is applied the same way. | COMPLETED and FAILED are terminal: only a RUNNING job accepts a report | medium; not executed | Findings.TerminalStateIsLeft | Findings.CorrectedRunKeepsTerminal |

The repository's operations are modelled as written, with `Repository.CompleteJob`. The corrected completion `Findings.CompleteRunningJob` and the runs that use it (`Findings.CorrectedStep`) are given alongside.
