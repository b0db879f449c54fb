/**
 The retry-vs-exhaust rule shared by an explicit failure report
 (app/repository.py:95-104) and a timed-out worker (app/repository.py:121-130),
 factored into one pure function so both call sites provably agree.
 */
module RetryPolicy {
  import opened Options
  import opened Models
  import Decimal

  datatype Decision = Requeue | Exhaust

  /** Requeue while the job has been claimed fewer times than its budget allows. */
  function Decide(attempts: nat, maxAttempts: nat): (d: Decision)
    ensures d == Requeue <==> attempts < maxAttempts
  {
    if attempts < maxAttempts then Requeue else Exhaust
  }

  const GenericFailure: string := "Job failed"

  /** `error_message or "Job failed"`: a missing or empty message is replaced. */
  function FailureMessage(errorMessage: Option<string>): (m: string)
    ensures m != ""
    ensures errorMessage.Some? && errorMessage.value != "" ==> m == errorMessage.value
    ensures errorMessage.None? || errorMessage.value == "" ==> m == GenericFailure
  {
    match errorMessage
    case Some(text) => if text != "" then text else GenericFailure
    case None => GenericFailure
  }

  /** The error text the sweeper records: `Worker timeout after {timeout_seconds}s`. */
  function TimeoutMessage(timeoutSeconds: int): (m: string)
    ensures m != ""
  {
    "Worker timeout after " + Decimal.IntToString(timeoutSeconds) + "s"
  }

  /** The sweeper's message names the threshold: different thresholds, different messages. */
  lemma TimeoutMessageNamesThreshold(a: int, b: int)
    requires TimeoutMessage(a) == TimeoutMessage(b)
    ensures a == b
  {
    var prefix := "Worker timeout after ";
    var ma, mb := TimeoutMessage(a), TimeoutMessage(b);
    assert ma[|prefix|..|ma| - 1] == Decimal.IntToString(a);
    assert mb[|prefix|..|mb| - 1] == Decimal.IntToString(b);
    Decimal.IntToStringInjective(a, b);
  }

  /**
   A failure of `j` with the given reason: the reason is recorded, then the
   job is either requeued (worker and start time cleared, attempts kept) or
   permanently failed (completion time set). Nothing else changes.
   */
  function ApplyFailure(j: Job, reason: string, now: Time): (r: Job)
    ensures Evolves(j, r) && r.attempts == j.attempts
    ensures r.lastError == Some(reason)
    ensures r.state == Pending <==> j.attempts < j.maxAttempts
    ensures r.state == Failed <==> j.attempts >= j.maxAttempts
    ensures r.state == Pending ==>
              r.assignedWorkerId.None? && r.startedAt.None? && r.completedAt == j.completedAt
    ensures r.state == Failed ==>
              r.completedAt == Some(now)
              && r.assignedWorkerId == j.assignedWorkerId && r.startedAt == j.startedAt
    ensures r.updatedAt == j.updatedAt
    ensures JobInv(j) ==> JobInv(r)
  {
    var failed := j.(lastError := Some(reason));
    match Decide(j.attempts, j.maxAttempts)
    case Requeue => failed.(state := Pending, assignedWorkerId := None, startedAt := None)
    case Exhaust => failed.(state := Failed, completedAt := Some(now))
  }

  /**
   Once the budget is spent every further failure, reported or timed out,
   is permanent: the job cannot be claimed again, and a failure of the
   FAILED job leaves it FAILED.
   */
  lemma ExhaustedFailureIsPermanent(j: Job, reason: string, reason': string, now: Time, now': Time)
    requires j.attempts >= j.maxAttempts
    ensures ApplyFailure(j, reason, now).state == Failed
    ensures ApplyFailure(ApplyFailure(j, reason, now), reason', now').state == Failed
  {
  }

  /** A successful report: COMPLETED, completion time set, previous error cleared. */
  function ApplySuccess(j: Job, now: Time): (r: Job)
    ensures Evolves(j, r) && r.attempts == j.attempts
    ensures r.state == Completed && r.completedAt == Some(now) && r.lastError.None?
    ensures r.assignedWorkerId == j.assignedWorkerId && r.startedAt == j.startedAt
    ensures r.updatedAt == j.updatedAt
    ensures JobInv(j) ==> JobInv(r)
  {
    j.(state := Completed, completedAt := Some(now), lastError := None)
  }
}
