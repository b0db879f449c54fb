/**
 The repository as a transition system: each step is one atomic call of a
 repository operation with arbitrary arguments. Properties of whole runs
 (the invariant, attempt counting, worker ownership) are proved here.
 */
module Transitions {
  import opened Options
  import opened Models
  import opened RetryPolicy
  import opened Repository

  datatype Op =
    | Create(id: JobId, jobType: Option<string>, payload: Option<Payload>, priority: Option<int>, now: Time)
    | Claim(worker: WorkerId, now: Time)
    | LostClaimRace
    | Complete(id: JobId, success: bool, errorMessage: Option<string>, now: Time)
    | Sweep(timeoutSeconds: int, now: Time)

  /** The best PENDING row claimed for `worker`, or no change when none is PENDING. */
  ghost predicate ClaimStep(s: Store, worker: WorkerId, now: Time, s': Store) {
    || (!HasPending(s) && s' == s)
    || (exists id :: IsNextCandidate(s, id) && s' == s[id := ClaimedJob(s[id], worker, now)])
  }

  /** One atomic call of a repository operation. A compare-and-set claim that lost its race changes nothing. */
  ghost predicate Step(s: Store, op: Op, s': Store) {
    match op
    case Create(id, jobType, payload, priority, now) =>
      && id !in s
      && (priority.Some? ==> ValidPriority(priority.value))
      && s' == CreateJob(s, id, jobType, payload, priority, now).1
    case Claim(worker, now) => ClaimStep(s, worker, now, s')
    case LostClaimRace => s' == s
    case Complete(id, success, errorMessage, now) => s' == CompleteJob(s, id, success, errorMessage, now).1
    case Sweep(timeoutSeconds, now) => s' == SweepTimeouts(s, timeoutSeconds, now).1
  }

  /** Every operation keeps the invariant and only lets rows evolve. */
  lemma StepPreservesInv(s: Store, op: Op, s': Store)
    requires StoreInv(s) && Step(s, op, s')
    ensures StoreInv(s') && StoreEvolves(s, s')
  {
    if op.Claim? && s' != s {
      var id :| IsNextCandidate(s, id) && s' == s[id := ClaimedJob(s[id], op.worker, op.now)];
      assert s' == CompareAndSet(s, id, op.worker, op.now).1;
    }
  }

  /** A run: `states[i + 1]` follows from `states[i]` by `ops[i]`. */
  ghost predicate IsRun(states: seq<Store>, ops: seq<Op>) {
    && |states| == |ops| + 1
    && forall i :: 0 <= i < |ops| ==> Step(states[i], ops[i], states[i + 1])
  }

  /** Dropping the last step of a run leaves a run. */
  lemma RunPrefix(states: seq<Store>, ops: seq<Op>)
    requires IsRun(states, ops) && |ops| > 0
    ensures IsRun(states[..|ops|], ops[..|ops| - 1])
    ensures Step(states[|ops| - 1], ops[|ops| - 1], states[|ops|])
  {
    var n := |ops|;
    forall i | 0 <= i < n - 1
      ensures Step(states[..n][i], ops[..n - 1][i], states[..n][i + 1])
    {
      assert states[..n][i] == states[i] && states[..n][i + 1] == states[i + 1];
    }
  }

  /** Starting from a store that satisfies the invariant (the empty store does), every state of a run does. */
  lemma {:induction false} RunPreservesInv(states: seq<Store>, ops: seq<Op>)
    requires IsRun(states, ops) && StoreInv(states[0])
    ensures forall i :: 0 <= i < |states| ==> StoreInv(states[i])
    ensures StoreEvolves(states[0], states[|states| - 1])
  {
    if |ops| > 0 {
      var n := |ops|;
      RunPrefix(states, ops);
      RunPreservesInv(states[..n], ops[..n - 1]);
      StepPreservesInv(states[n - 1], ops[n - 1], states[n]);
    }
  }

  /** Row `id` went from PENDING to RUNNING in this step: it was claimed. */
  predicate ClaimedIn(s: Store, s': Store, id: JobId) {
    id in s && id in s' && s[id].state == Pending && s'[id].state == Running
  }

  /** Attempts change only when the row is claimed, and then by exactly one. */
  lemma StepCountsAttempts(s: Store, op: Op, s': Store, id: JobId)
    requires StoreInv(s) && Step(s, op, s') && id in s
    ensures id in s'
    ensures s'[id].attempts == s[id].attempts + (if ClaimedIn(s, s', id) then 1 else 0)
  {
    StepPreservesInv(s, op, s');
    if op.Claim? && s' != s {
      var other :| IsNextCandidate(s, other) && s' == s[other := ClaimedJob(s[other], op.worker, op.now)];
    }
  }

  /** How many steps of the run claimed row `id`. */
  ghost function ClaimCount(states: seq<Store>, id: JobId): (n: nat)
    ensures n <= if |states| < 2 then 0 else |states| - 1
    decreases |states|
  {
    if |states| < 2 then 0
    else ClaimCount(states[..|states| - 1], id)
         + (if ClaimedIn(states[|states| - 2], states[|states| - 1], id) then 1 else 0)
  }

  /** Over a run, a row's attempt counter grows by exactly the number of times it was claimed. */
  lemma {:induction false} AttemptsCountClaims(states: seq<Store>, ops: seq<Op>, id: JobId)
    requires IsRun(states, ops) && StoreInv(states[0]) && id in states[0]
    ensures id in states[|states| - 1]
    ensures states[|states| - 1][id].attempts == states[0][id].attempts + ClaimCount(states, id)
  {
    if |ops| > 0 {
      var n := |ops|;
      RunPrefix(states, ops);
      AttemptsCountClaims(states[..n], ops[..n - 1], id);
      RunPreservesInv(states[..n], ops[..n - 1]);
      StepCountsAttempts(states[n - 1], ops[n - 1], states[n], id);
    }
  }

  /**
   The retry budget: a row that starts a run unclaimed (as every created
   row does) is claimed at most `maxAttempts` times in the whole run.
   */
  lemma ClaimedAtMostMaxAttempts(states: seq<Store>, ops: seq<Op>, id: JobId)
    requires IsRun(states, ops) && StoreInv(states[0]) && id in states[0]
    requires states[0][id].attempts == 0
    ensures ClaimCount(states, id) <= states[0][id].maxAttempts
  {
    AttemptsCountClaims(states, ops, id);
    RunPreservesInv(states, ops);
    var last := states[|states| - 1];
    assert JobInv(last[id]);
  }

  /**
   A RUNNING row that is still RUNNING after a step kept its worker and its
   start time: no operation hands a running job to a second worker.
   */
  lemma RunningJobKeepsWorker(s: Store, op: Op, s': Store, id: JobId)
    requires StoreInv(s) && Step(s, op, s')
    requires id in s && s[id].state == Running
    ensures id in s'
    ensures s'[id].state == Running ==>
              s'[id].assignedWorkerId == s[id].assignedWorkerId && s'[id].startedAt == s[id].startedAt
  {
    StepPreservesInv(s, op, s');
    if op.Claim? && s' != s {
      var other :| IsNextCandidate(s, other) && s' == s[other := ClaimedJob(s[other], op.worker, op.now)];
    }
  }

  /** Claims follow (priority descending, created_at ascending): priorities 3, 9, 5 are served 9, 5, 3. */
  lemma ClaimOrderScenario(a: Job, b: Job, c: Job, w: WorkerId, now: Time)
    requires a.id == "a" && b.id == "b" && c.id == "c"
    requires a.state == Pending && b.state == Pending && c.state == Pending
    requires a.priority == 3 && b.priority == 9 && c.priority == 5
    ensures var s := map["a" := a, "b" := b, "c" := c];
            && IsNextCandidate(s, "b") && !IsNextCandidate(s, "a") && !IsNextCandidate(s, "c")
            && var s1 := s["b" := ClaimedJob(b, w, now)];
               && IsNextCandidate(s1, "c") && !IsNextCandidate(s1, "a")
               && var s2 := s1["c" := ClaimedJob(c, w, now)];
                  && IsNextCandidate(s2, "a")
                  && !HasPending(s2["a" := ClaimedJob(a, w, now)])
  {
    var s := map["a" := a, "b" := b, "c" := c];
    var s1 := s["b" := ClaimedJob(b, w, now)];
    var s2 := s1["c" := ClaimedJob(c, w, now)];
    var s3 := s2["a" := ClaimedJob(a, w, now)];
    assert s3.Keys == {"a", "b", "c"};
  }

  /**
   The default budget of two: a fresh job that fails once is requeued with
   one attempt used; claimed again and failed again, it is FAILED with the
   second message and a completion time.
   */
  lemma RetryScenario(id: JobId, w1: WorkerId, w2: WorkerId, m1: string, m2: string,
                      t0: Time, t1: Time, t2: Time, t3: Time, t4: Time)
    requires m1 != "" && m2 != ""
    ensures var s0 := CreateJob(map[], id, None, None, None, t0).1;
            var s1 := s0[id := ClaimedJob(s0[id], w1, t1)];
            var s2 := CompleteJob(s1, id, false, Some(m1), t2).1;
            && s2[id].state == Pending && s2[id].attempts == 1 && s2[id].lastError == Some(m1)
            && var s3 := s2[id := ClaimedJob(s2[id], w2, t3)];
               && s3[id].attempts == 2
               && var s4 := CompleteJob(s3, id, false, Some(m2), t4).1;
                  && s4[id].state == Failed && s4[id].completedAt == Some(t4)
                  && s4[id].lastError == Some(m2)
  {
  }
}
