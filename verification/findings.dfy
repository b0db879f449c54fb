/**
 `complete_job` (app/repository.py:85-108) applies a report to a row in
 any state. A report for a job that is no longer RUNNING — one the sweeper
 already reclaimed, or one already COMPLETED or FAILED — is applied all the
 same, so the terminal states are not terminal. This module exhibits that
 on the code as written and proves the intended property of a corrected
 completion that accepts reports only for RUNNING rows.
 */
module Findings {
  import opened Options
  import opened Models
  import opened RetryPolicy
  import opened Repository
  import opened Transitions

  /** As written: a success report turns a permanently FAILED job into a COMPLETED one. */
  lemma CompleteJobRevivesFailedJob(s: Store, id: JobId, now: Time)
    requires id in s && s[id].state == Failed
    ensures CompleteJob(s, id, true, None, now).1[id].state == Completed
  {
  }

  /** As written: a failure report requeues a COMPLETED job that has budget left. */
  lemma CompleteJobRequeuesCompletedJob(s: Store, id: JobId, errorMessage: Option<string>, now: Time)
    requires id in s && s[id].state == Completed && s[id].attempts < s[id].maxAttempts
    ensures CompleteJob(s, id, false, errorMessage, now).1[id].state == Pending
  {
  }

  /** A concrete run of the code as written in which a terminal row leaves its terminal state. */
  lemma TerminalStateIsLeft()
    ensures exists s: Store, s': Store :: StoreInv(s) && Step(s, Complete("j", true, None, 9), s')
                            && "j" in s && "j" in s' && s["j"].state == Failed && s'["j"].state == Completed
  {
    var failed := Job("j", "sleep", map[], 5, Failed, 2, 2, Some("w"), Some(1), Some(2),
                      Some("Job failed"), 0, 2);
    var s := map["j" := failed];
    var s' := CompleteJob(s, "j", true, None, 9).1;
    assert StoreInv(s) && Step(s, Complete("j", true, None, 9), s');
  }

  datatype CompletionError = NotFound | NotRunning

  datatype CompletionOutcome = Accepted(job: Job) | Rejected(error: CompletionError)

  /**
   Corrected completion: a report is applied only to a RUNNING row, exactly
   as `complete_job` applies it; any other report is rejected and changes
   nothing.
   */
  function CompleteRunningJob(s: Store, id: JobId, success: bool, errorMessage: Option<string>, now: Time)
    : (r: (CompletionOutcome, Store))
    ensures id !in s ==> r.0 == Rejected(NotFound) && r.1 == s
    ensures id in s && s[id].state != Running ==> r.0 == Rejected(NotRunning) && r.1 == s
    ensures id in s && s[id].state == Running ==>
              var applied := CompleteJob(s, id, success, errorMessage, now);
              r.0 == Accepted(applied.0.value) && r.1 == applied.1
  {
    if id !in s then
      (Rejected(NotFound), s)
    else if s[id].state != Running then
      (Rejected(NotRunning), s)
    else
      var applied := CompleteJob(s, id, success, errorMessage, now);
      (Accepted(applied.0.value), applied.1)
  }

  /** The operations with the corrected completion in place of `complete_job`. */
  ghost predicate CorrectedStep(s: Store, op: Op, s': Store) {
    if op.Complete? then
      s' == CompleteRunningJob(s, op.id, op.success, op.errorMessage, op.now).1
    else
      Step(s, op, s')
  }

  /** A corrected step is either a step of the code as written or no change. */
  lemma CorrectedStepIsStep(s: Store, op: Op, s': Store)
    requires CorrectedStep(s, op, s')
    ensures Step(s, op, s') || s' == s
  {
  }

  /** With the corrected completion, no operation changes a COMPLETED or FAILED row. */
  lemma CorrectedStepKeepsTerminal(s: Store, op: Op, s': Store, id: JobId)
    requires StoreInv(s) && CorrectedStep(s, op, s')
    requires id in s && IsTerminal(s[id].state)
    ensures id in s' && s'[id] == s[id]
  {
    if op.Claim? && s' != s {
      var other :| IsNextCandidate(s, other) && s' == s[other := ClaimedJob(s[other], op.worker, op.now)];
    }
  }

  /** A corrected run keeps the invariant and never changes a row once it is terminal. */
  lemma {:induction false} CorrectedRunKeepsTerminal(states: seq<Store>, ops: seq<Op>, id: JobId)
    requires |states| == |ops| + 1
    requires forall i :: 0 <= i < |ops| ==> CorrectedStep(states[i], ops[i], states[i + 1])
    requires StoreInv(states[0])
    requires id in states[0] && IsTerminal(states[0][id].state)
    ensures StoreInv(states[|states| - 1])
    ensures id in states[|states| - 1] && states[|states| - 1][id] == states[0][id]
  {
    if |ops| > 0 {
      var n := |ops|;
      CorrectedRunKeepsTerminal(states[..n], ops[..n - 1], id);
      var s, s' := states[n - 1], states[n];
      CorrectedStepIsStep(s, ops[n - 1], s');
      if s' != s {
        StepPreservesInv(s, ops[n - 1], s');
      }
      CorrectedStepKeepsTerminal(s, ops[n - 1], s', id);
    }
  }
}
