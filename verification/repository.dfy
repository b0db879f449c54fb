/**
 The five operations of `JobRepository` (app/repository.py) over a store
 that maps each job id to its row. Every operation is one atomic
 whole-store update; the clock reading `now` is a parameter.
 */
module Repository {
  import opened Options
  import opened Models
  import opened RetryPolicy

  type Store = map<JobId, Job>

  /** The primary key of every row is the key it is stored under. */
  predicate KeyedById(s: Store) {
    forall id :: id in s ==> s[id].id == id
  }

  predicate StoreInv(s: Store) {
    KeyedById(s) && forall id :: id in s ==> JobInv(s[id])
  }

  /** No row disappears and every row only evolves (see `Models.Evolves`). */
  predicate StoreEvolves(s: Store, s': Store) {
    s.Keys <= s'.Keys && forall id :: id in s ==> Evolves(s[id], s'[id])
  }

  /**
   Committing a modified row: `updated_at` is refreshed by its `onupdate`
   hook, which fires only when some column actually changed.
   */
  function Commit(before: Job, after: Job, now: Time): (r: Job)
    ensures r.(updatedAt := after.updatedAt) == after
    ensures after == before ==> r == before
    ensures after != before && after.updatedAt == before.updatedAt ==> r.updatedAt == now
  {
    if after == before then before else after.(updatedAt := now)
  }

  // ---------------------------------------------------------------- create / get

  /** Inserts a fresh row for a submission under a fresh primary key. */
  function CreateJob(s: Store, id: JobId, jobType: Option<string>, payload: Option<Payload>,
                     priority: Option<int>, now: Time): (r: (Job, Store))
    requires id !in s
    requires priority.Some? ==> ValidPriority(priority.value)
    ensures r.1.Keys == s.Keys + {id}
    ensures r.1[id] == r.0 && r.0 == NewJob(id, jobType, payload, priority, now)
    ensures forall other :: other in s ==> r.1[other] == s[other]
    ensures StoreInv(s) ==> StoreInv(r.1)
    ensures StoreEvolves(s, r.1)
  {
    var job := NewJob(id, jobType, payload, priority, now);
    (job, s[id := job])
  }

  /** Looks a row up by primary key; an unknown id yields nothing. */
  function GetJob(s: Store, id: JobId): (r: Option<Job>)
    ensures r.None? <==> id !in s
    ensures r.Some? ==> r.value == s[id]
    ensures r.Some? && KeyedById(s) ==> r.value.id == id
  {
    if id in s then Some(s[id]) else None
  }

  /** A created job is found again by its id, unchanged, and lookups of other ids are unaffected. */
  lemma GetAfterCreate(s: Store, id: JobId, jobType: Option<string>, payload: Option<Payload>,
                       priority: Option<int>, now: Time, other: JobId)
    requires id !in s
    requires priority.Some? ==> ValidPriority(priority.value)
    ensures GetJob(CreateJob(s, id, jobType, payload, priority, now).1, id)
            == Some(CreateJob(s, id, jobType, payload, priority, now).0)
    ensures other != id ==> GetJob(CreateJob(s, id, jobType, payload, priority, now).1, other)
                            == GetJob(s, other)
  {
  }

  // ---------------------------------------------------------------- claim

  /** `a` is served before `b`: higher priority first, then older first. */
  predicate ServedBefore(a: Job, b: Job) {
    a.priority > b.priority || (a.priority == b.priority && a.createdAt < b.createdAt)
  }

  predicate HasPending(s: Store) {
    exists id :: id in s && s[id].state == Pending
  }

  /** `id` is a PENDING row that no other PENDING row is served before. */
  predicate IsNextCandidate(s: Store, id: JobId) {
    && id in s
    && s[id].state == Pending
    && forall other :: other in s && s[other].state == Pending ==> !ServedBefore(s[other], s[id])
  }

  /** Two candidates can only be tied: the order admits no other choice. */
  lemma CandidatesAreTied(s: Store, a: JobId, b: JobId)
    requires IsNextCandidate(s, a) && IsNextCandidate(s, b)
    ensures s[a].priority == s[b].priority && s[a].createdAt == s[b].createdAt
  {
  }

  /**
   The `ORDER BY priority DESC, created_at ASC LIMIT 1` query over PENDING
   rows. Rows equal in both keys are picked in no particular order.
   */
  method SelectCandidate(s: Store) returns (r: Option<JobId>)
    ensures r.None? <==> !HasPending(s)
    ensures r.Some? ==> IsNextCandidate(s, r.value)
  {
    r := None;
    var rest := s.Keys;
    ghost var seen: set<JobId> := {};
    while rest != {}
      invariant seen + rest == s.Keys && seen !! rest
      invariant r.None? ==> forall id :: id in seen ==> s[id].state != Pending
      invariant r.Some? ==> r.value in s && s[r.value].state == Pending
      invariant r.Some? ==>
                  forall other :: other in seen && s[other].state == Pending ==>
                    !ServedBefore(s[other], s[r.value])
      decreases |rest|
    {
      var id :| id in rest;
      if s[id].state == Pending && (r.None? || ServedBefore(s[id], s[r.value])) {
        r := Some(id);
      }
      rest := rest - {id};
      seen := seen + {id};
    }
  }

  /**
   The claimed version of a row: RUNNING for `worker` since `now`, one more
   attempt. The state always changes, so `updated_at` is always refreshed.
   */
  function ClaimedJob(j: Job, worker: WorkerId, now: Time): (r: Job)
    ensures Evolves(j, r) && r.attempts == j.attempts + 1
    ensures r.state == Running && r.assignedWorkerId == Some(worker) && r.startedAt == Some(now)
    ensures r.lastError == j.lastError && r.completedAt == j.completedAt
    ensures r.updatedAt == now
    ensures JobInv(j) && j.state == Pending ==> JobInv(r)
  {
    j.(state := Running, assignedWorkerId := Some(worker), startedAt := Some(now),
       attempts := j.attempts + 1, updatedAt := now)
  }

  /**
   The conditional `UPDATE ... WHERE id = :id AND state = 'PENDING'` run
   against the store as it is at update time: it changes exactly that row
   when it is still PENDING and nothing otherwise.
   */
  function CompareAndSet(s: Store, id: JobId, worker: WorkerId, now: Time): (r: (Option<Job>, Store))
    ensures r.0.Some? <==> id in s && s[id].state == Pending
    ensures r.0.None? ==> r.1 == s
    ensures r.0.Some? ==> r.0.value == ClaimedJob(s[id], worker, now) && r.1 == s[id := r.0.value]
    ensures StoreInv(s) ==> StoreInv(r.1)
    ensures StoreEvolves(s, r.1)
  {
    if id in s && s[id].state == Pending then
      var job := ClaimedJob(s[id], worker, now);
      (Some(job), s[id := job])
    else
      (None, s)
  }

  /** `dialect.startswith("postgres")` */
  predicate IsPostgres(dialect: string) {
    |dialect| >= 8 && dialect[..8] == "postgres"
  }

  /**
   The compare-and-set claim: the candidate is chosen from `snapshot` (the
   store the selection query saw) and the conditional update runs against
   `current` (the store at update time). A lost race yields nothing and
   changes nothing; the next candidate is not tried.
   */
  method ClaimCompareAndSet(snapshot: Store, current: Store, worker: WorkerId, now: Time)
    returns (r: Option<Job>, s': Store)
    requires KeyedById(current)
    ensures !HasPending(snapshot) ==> r.None?
    ensures r.None? ==> s' == current
    ensures r.Some? ==>
              var id := r.value.id;
              && IsNextCandidate(snapshot, id)
              && id in current && current[id].state == Pending
              && r.value == ClaimedJob(current[id], worker, now)
              && s' == current[id := r.value]
    ensures r.None? && HasPending(snapshot) ==>
              exists id :: IsNextCandidate(snapshot, id) && (id !in current || current[id].state != Pending)
    ensures StoreInv(current) ==> StoreInv(s')
    ensures StoreEvolves(current, s')
  {
    var candidate := SelectCandidate(snapshot);
    if candidate.None? {
      return None, current;
    }
    var id := candidate.value;
    var result := CompareAndSet(current, id, worker, now);
    r, s' := result.0, result.1;
  }

  /**
   `claim_next_job`: both dialect branches. Without a competing caller the
   selected row is still PENDING at update time, so both branches claim the
   best PENDING row, or return nothing with the store unchanged.
   */
  method ClaimNextJob(s: Store, dialect: string, worker: WorkerId, now: Time)
    returns (r: Option<Job>, s': Store)
    requires KeyedById(s)
    ensures r.None? <==> !HasPending(s)
    ensures r.None? ==> s' == s
    ensures r.Some? ==>
              var id := r.value.id;
              && IsNextCandidate(s, id)
              && r.value == ClaimedJob(s[id], worker, now)
              && s' == s[id := r.value]
    ensures StoreInv(s) ==> StoreInv(s')
    ensures StoreEvolves(s, s')
  {
    if IsPostgres(dialect) {
      var candidate := SelectCandidate(s);
      if candidate.None? {
        return None, s;
      }
      var id := candidate.value;
      var job := ClaimedJob(s[id], worker, now);
      r, s' := Some(job), s[id := job];
      assert StoreInv(s) ==> StoreInv(s') by {
        var _ := CompareAndSet(s, id, worker, now);
      }
      return;
    }
    r, s' := ClaimCompareAndSet(s, s, worker, now);
  }

  /**
   Two callers that selected the same PENDING row: the first conditional
   update wins, the second affects no row, and the attempt counter goes up
   exactly once, for the winner.
   */
  lemma CompareAndSetRaceHasOneWinner(s: Store, id: JobId, w1: WorkerId, w2: WorkerId,
                                      now1: Time, now2: Time)
    requires id in s && s[id].state == Pending
    ensures var first := CompareAndSet(s, id, w1, now1);
            var second := CompareAndSet(first.1, id, w2, now2);
            && first.0.Some? && second.0.None?
            && second.1 == first.1
            && second.1[id].attempts == s[id].attempts + 1
            && second.1[id].assignedWorkerId == Some(w1)
  {
  }

  // ---------------------------------------------------------------- complete

  /**
   `complete_job`: a success or a failure report for any existing row,
   whatever its state. Failures go through the shared retry rule.
   */
  function CompleteJob(s: Store, id: JobId, success: bool, errorMessage: Option<string>, now: Time)
    : (r: (Option<Job>, Store))
    ensures r.0.None? <==> id !in s
    ensures r.0.None? ==> r.1 == s
    ensures r.0.Some? ==> r.1 == s[id := r.0.value]
    ensures r.0.Some? && success ==>
              && r.0.value.state == Completed
              && r.0.value.completedAt == Some(now)
              && r.0.value.lastError.None?
              && r.0.value.attempts == s[id].attempts
    ensures r.0.Some? && success ==> r.0.value == Commit(s[id], ApplySuccess(s[id], now), now)
    ensures r.0.Some? && !success ==>
              r.0.value == Commit(s[id], ApplyFailure(s[id], FailureMessage(errorMessage), now), now)
    ensures StoreInv(s) ==> StoreInv(r.1)
    ensures StoreEvolves(s, r.1)
  {
    if id !in s then
      (None, s)
    else
      var before := s[id];
      var after := if success then ApplySuccess(before, now)
                   else ApplyFailure(before, FailureMessage(errorMessage), now);
      var job := Commit(before, after, now);
      (Some(job), s[id := job])
  }

  // ---------------------------------------------------------------- sweep

  /** RUNNING with a start time strictly before `now - timeoutSeconds`. */
  predicate TimedOut(j: Job, timeoutSeconds: int, now: Time) {
    j.state == Running && j.startedAt.Some? && j.startedAt.value < now - timeoutSeconds
  }

  function TimedOutIds(s: Store, timeoutSeconds: int, now: Time): (ids: set<JobId>)
    ensures forall id :: id in ids <==> id in s && TimedOut(s[id], timeoutSeconds, now)
  {
    set id | id in s && TimedOut(s[id], timeoutSeconds, now)
  }

  /** One overdue row put through the shared retry rule with the timeout message. */
  function Reclaim(j: Job, timeoutSeconds: int, now: Time): (r: Job)
    requires j.state == Running
    ensures r == Commit(j, ApplyFailure(j, TimeoutMessage(timeoutSeconds), now), now)
    ensures r.state != Running && r.updatedAt == now
  {
    var after := ApplyFailure(j, TimeoutMessage(timeoutSeconds), now);
    assert after.state != j.state;
    Commit(j, after, now)
  }

  /** What a sweep does to one row: reclaim it if overdue, leave it otherwise. */
  function SweepRow(j: Job, timeoutSeconds: int, now: Time): (r: Job)
    ensures r == j <==> !TimedOut(j, timeoutSeconds, now)
  {
    if TimedOut(j, timeoutSeconds, now) then Reclaim(j, timeoutSeconds, now) else j
  }

  /**
   `sweep_timeouts` as one atomic update: every overdue RUNNING row is
   reclaimed, every other row is untouched, and the count of reclaimed rows
   is returned. With nothing overdue the store is left exactly as it was.
   */
  function SweepTimeouts(s: Store, timeoutSeconds: int, now: Time): (r: (nat, Store))
    ensures r.0 == |TimedOutIds(s, timeoutSeconds, now)|
    ensures r.1.Keys == s.Keys
    ensures forall id :: id in s && TimedOut(s[id], timeoutSeconds, now) ==>
              r.1[id] == Reclaim(s[id], timeoutSeconds, now)
    ensures forall id :: id in s && !TimedOut(s[id], timeoutSeconds, now) ==> r.1[id] == s[id]
    ensures r.0 == 0 <==> r.1 == s
    ensures StoreInv(s) ==> StoreInv(r.1)
    ensures StoreEvolves(s, r.1)
  {
    var overdue := TimedOutIds(s, timeoutSeconds, now);
    if |overdue| == 0 then
      (0, s)
    else
      var s' := SweepAll(s, timeoutSeconds, now);
      assert s' != s by {
        var some :| some in overdue;
        assert s'[some] != s[some];
      }
      (|overdue|, s')
  }

  /** `SweepRow` applied to every row. */
  function SweepAll(s: Store, timeoutSeconds: int, now: Time): (s': Store)
    ensures s'.Keys == s.Keys
    ensures forall id :: id in s ==> s'[id] == SweepRow(s[id], timeoutSeconds, now)
  {
    map id | id in s :: SweepRow(s[id], timeoutSeconds, now)
  }

  /**
   The sweeper's own loop: select the overdue rows, then reclaim them one
   at a time, counting; commit only when something was reclaimed. It ends
   in the same store and count as the atomic update `SweepTimeouts`.
   */
  method SweepTimeoutsByScan(s: Store, timeoutSeconds: int, now: Time) returns (count: nat, s': Store)
    ensures (count, s') == SweepTimeouts(s, timeoutSeconds, now)
  {
    var overdue := TimedOutIds(s, timeoutSeconds, now);
    var swept;
    count, swept := ReclaimEach(s, overdue, timeoutSeconds, now);
    if count == 0 {
      s' := s;
    } else {
      s' := swept;
    }
    ScanMatchesSweep(s, timeoutSeconds, now, count, swept);
  }

  /**
   The body of the sweeper's loop over the selected rows: each is reclaimed
   once and counted; rows not selected are left alone.
   */
  method ReclaimEach(s: Store, overdue: set<JobId>, timeoutSeconds: int, now: Time)
    returns (count: nat, s': Store)
    requires forall id :: id in overdue ==> id in s && TimedOut(s[id], timeoutSeconds, now)
    ensures count == |overdue|
    ensures s'.Keys == s.Keys
    ensures forall id :: id in s ==> s'[id] == if id in overdue then SweepRow(s[id], timeoutSeconds, now) else s[id]
  {
    var pending := overdue;
    count := 0;
    s' := s;
    while pending != {}
      invariant pending <= overdue
      invariant count + |pending| == |overdue|
      invariant s'.Keys == s.Keys
      invariant forall id :: id in s ==>
                  s'[id] == if id in overdue && id !in pending then SweepRow(s[id], timeoutSeconds, now) else s[id]
      decreases |pending|
    {
      var id :| id in pending;
      s' := s'[id := Reclaim(s'[id], timeoutSeconds, now)];
      count := count + 1;
      pending := pending - {id};
    }
  }

  /**
   A scan that reclaimed every overdue row, and counted them, agrees with
   the atomic sweep: the swept store when the count is positive, the
   untouched store (rollback) when it is zero.
   */
  lemma ScanMatchesSweep(s: Store, timeoutSeconds: int, now: Time, count: nat, swept: Store)
    requires count == |TimedOutIds(s, timeoutSeconds, now)|
    requires swept.Keys == s.Keys
    requires forall id :: id in s ==>
               swept[id] == if id in TimedOutIds(s, timeoutSeconds, now)
                            then SweepRow(s[id], timeoutSeconds, now) else s[id]
    ensures (count, if count == 0 then s else swept) == SweepTimeouts(s, timeoutSeconds, now)
  {
    if count != 0 {
      var expected := SweepAll(s, timeoutSeconds, now);
      forall id | id in s
        ensures swept[id] == expected[id]
      {
        assert id in TimedOutIds(s, timeoutSeconds, now) <==> TimedOut(s[id], timeoutSeconds, now);
      }
      assert swept == expected;
    }
  }
}
