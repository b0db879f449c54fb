/**
 The persisted job record and its state enum (app/models.py), with the
 column defaults a freshly inserted row receives and the per-row invariant
 that every operation of the repository keeps.
 */
module Models {
  import opened Options

  /** Primary key: a UUID rendered as a string, supplied fresh by the caller. */
  type JobId = string
  type WorkerId = string
  /** Seconds on one integer clock; stands in for the timezone-aware datetimes. */
  type Time = int
  /** The JSON payload, opaque to the scheduler: keys to encoded values. */
  type Payload = map<string, string>

  datatype JobState = Pending | Running | Completed | Failed

  datatype Job = Job(
    id: JobId,
    jobType: string,
    payload: Payload,
    priority: int,
    state: JobState,
    attempts: nat,
    maxAttempts: nat,
    assignedWorkerId: Option<WorkerId>,
    startedAt: Option<Time>,
    completedAt: Option<Time>,
    lastError: Option<string>,
    createdAt: Time,
    updatedAt: Time)

  const DefaultJobType: string := "sleep"
  const DefaultPriority: int := 5
  const MinPriority: int := 1
  const MaxPriority: int := 10
  /** The initial run plus one retry. */
  const DefaultMaxAttempts: nat := 2

  predicate ValidPriority(p: int) {
    MinPriority <= p <= MaxPriority
  }

  predicate IsTerminal(s: JobState) {
    s == Completed || s == Failed
  }

  /**
   What every stored job satisfies. Note the one-directional worker facts:
   a terminal transition leaves `assignedWorkerId` and `startedAt` in place,
   so "worker set iff RUNNING" does not hold.
   */
  predicate JobInv(j: Job) {
    && ValidPriority(j.priority)
    && j.maxAttempts >= 1
    && j.attempts <= j.maxAttempts
    && (j.state == Pending ==>
          j.attempts < j.maxAttempts && j.assignedWorkerId.None? && j.startedAt.None?)
    && (j.state == Running ==> j.assignedWorkerId.Some? && j.startedAt.Some?)
    && (j.state == Completed ==> j.completedAt.Some? && j.lastError.None?)
    && (j.state == Failed ==> j.completedAt.Some? && j.lastError.Some?)
  }

  /**
   `after` is a later version of `before`: the identity, the submitted
   fields, the retry budget and the creation time never change, and the
   attempt counter never goes down.
   */
  predicate Evolves(before: Job, after: Job) {
    && after.id == before.id
    && after.jobType == before.jobType
    && after.payload == before.payload
    && after.priority == before.priority
    && after.maxAttempts == before.maxAttempts
    && after.createdAt == before.createdAt
    && after.attempts >= before.attempts
  }

  /**
   The row inserted for a submission. Absent arguments take the column
   defaults; the schema bounds a supplied priority to 1..10.
   */
  function NewJob(id: JobId, jobType: Option<string>, payload: Option<Payload>,
                  priority: Option<int>, now: Time): (j: Job)
    requires priority.Some? ==> ValidPriority(priority.value)
    ensures JobInv(j)
    ensures j.id == id && j.state == Pending
    ensures j.attempts == 0 && j.maxAttempts == DefaultMaxAttempts
    ensures j.jobType == (if jobType.Some? then jobType.value else DefaultJobType)
    ensures j.payload == (if payload.Some? then payload.value else map[])
    ensures j.priority == (if priority.Some? then priority.value else DefaultPriority)
    ensures j.assignedWorkerId.None? && j.startedAt.None?
    ensures j.completedAt.None? && j.lastError.None?
    ensures j.createdAt == now && j.updatedAt == now
  {
    Job(
      id := id,
      jobType := if jobType.Some? then jobType.value else DefaultJobType,
      payload := if payload.Some? then payload.value else map[],
      priority := if priority.Some? then priority.value else DefaultPriority,
      state := Pending,
      attempts := 0,
      maxAttempts := DefaultMaxAttempts,
      assignedWorkerId := None,
      startedAt := None,
      completedAt := None,
      lastError := None,
      createdAt := now,
      updatedAt := now)
  }
}
