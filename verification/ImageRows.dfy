/** The rows of the image_generations table and the guarded statements that change them.

    Each statement is a WHERE clause (Matches) and a SET clause (Assign) over one row.  Times are
    whole seconds, as the table stores them.  The text columns that may be NULL or '' are "" here;
    a worker id is never "".  The prompt, size, step and seed columns are written once by the
    insert and by no statement below, so they are not carried. */
module ImageRows {
  import opened Wrappers
  import opened TaskStatus

  datatype ImageGeneration = ImageGeneration(
    id: int,
    userId: int,
    requestId: string,
    status: Status,
    retryCount: int,
    maxRetries: int,
    failureCode: string,
    worker: string,
    imageUrl: string,
    thumbnailUrl: string,
    storageKey: string,
    imageBytes: string,
    errorMessage: string,
    generationTime: real,
    createdAt: int,
    startedAt: Option<int>,
    completedAt: Option<int>,
    cancelledAt: Option<int>,
    leaseExpiresAt: Option<int>)

  type Rows = map<int, ImageGeneration>

  const LEASE_EXPIRED := "lease_expired"
  const LEASE_EXPIRED_MAX_RETRIES := "lease_expired_max_retries"

  datatype Statement =
    | ClaimById(worker: string, now: int, expiresAt: int)
    | ClaimOldest(worker: string, now: int, expiresAt: int)
    | RenewLease(userId: int, worker: string, expiresAt: int)
    | FinishClaimed(result: ImageGeneration)
    | DeferClaimed(userId: int, worker: string, failureCode: string, errorMessage: string)
    | CancelTask(userId: int, now: int)
    | RetryTask(userId: int)
    | RequeueExpired(now: int)
    | TimeOutExpired(now: int)

  predicate Waiting(r: ImageGeneration) {
    r.status.Queued? || r.status.Pending?
  }

  /** The fence: the row is being generated under this worker's name. */
  predicate OwnedBy(r: ImageGeneration, userId: int, worker: string) {
    r.userId == userId && r.status.Generating? && r.worker == worker
  }

  predicate LeaseExpired(r: ImageGeneration, now: int) {
    r.status.Generating? && r.leaseExpiresAt.Some? && r.leaseExpiresAt.value < now
  }

  /** The rows the polling claim may take: waiting ones, and running ones with no live lease. */
  predicate Claimable(r: ImageGeneration, now: int) {
    Waiting(r) || (r.status.Generating? && (r.leaseExpiresAt.None? || r.leaseExpiresAt.value < now))
  }

  predicate Matches(r: ImageGeneration, st: Statement) {
    match st
    case ClaimById(_, _, _) => Waiting(r)
    case ClaimOldest(_, now, _) => Claimable(r, now)
    case RenewLease(userId, worker, _) => OwnedBy(r, userId, worker)
    case FinishClaimed(g) => OwnedBy(r, g.userId, g.worker)
    case DeferClaimed(userId, worker, _, _) => OwnedBy(r, userId, worker)
    case CancelTask(userId, _) => r.userId == userId && (Waiting(r) || r.status.Generating?)
    case RetryTask(userId) =>
      && r.userId == userId
      && (r.status.Failed? || r.status.Timeout? || r.status.Cancelled?)
      && r.retryCount < r.maxRetries
    case RequeueExpired(now) => LeaseExpired(r, now) && r.retryCount < r.maxRetries
    case TimeOutExpired(now) => LeaseExpired(r, now) && r.retryCount >= r.maxRetries
  }

  function Claimed(r: ImageGeneration, worker: string, now: int, expiresAt: int): ImageGeneration {
    r.(status := Generating, worker := worker,
       startedAt := if r.startedAt.None? then Some(now) else r.startedAt,
       leaseExpiresAt := Some(expiresAt), failureCode := "", errorMessage := "")
  }

  function Assign(r: ImageGeneration, st: Statement): ImageGeneration {
    match st
    case ClaimById(worker, now, expiresAt) => Claimed(r, worker, now, expiresAt)
    case ClaimOldest(worker, now, expiresAt) => Claimed(r, worker, now, expiresAt)
    case RenewLease(_, _, expiresAt) => r.(leaseExpiresAt := Some(expiresAt))
    case FinishClaimed(g) =>
      r.(status := g.status, imageUrl := g.imageUrl, errorMessage := g.errorMessage,
         generationTime := g.generationTime, completedAt := g.completedAt,
         cancelledAt := g.cancelledAt, failureCode := g.failureCode,
         thumbnailUrl := g.thumbnailUrl, storageKey := g.storageKey,
         leaseExpiresAt := None, worker := "")
    case DeferClaimed(_, _, failureCode, errorMessage) =>
      r.(status := Queued, retryCount := r.retryCount + 1, failureCode := failureCode,
         errorMessage := errorMessage, worker := "", leaseExpiresAt := None, startedAt := None)
    case CancelTask(_, now) =>
      r.(status := Cancelled, cancelledAt := Some(now), leaseExpiresAt := None, worker := "",
         errorMessage := "", failureCode := "", completedAt := Some(now))
    case RetryTask(_) =>
      r.(status := Queued, retryCount := r.retryCount + 1, failureCode := "", errorMessage := "",
         imageUrl := "", thumbnailUrl := "", storageKey := "", generationTime := 0.0, worker := "",
         leaseExpiresAt := None, startedAt := None, completedAt := None, cancelledAt := None)
    case RequeueExpired(_) =>
      r.(status := Queued, worker := "", leaseExpiresAt := None, retryCount := r.retryCount + 1,
         failureCode := LEASE_EXPIRED,
         errorMessage := "worker lease expired, re-queued for retry")
    case TimeOutExpired(now) =>
      r.(status := Timeout, worker := "", leaseExpiresAt := None, completedAt := Some(now),
         failureCode := LEASE_EXPIRED_MAX_RETRIES,
         errorMessage := "worker lease expired and max retries reached")
  }

  function Execute(r: ImageGeneration, st: Statement): ImageGeneration {
    if Matches(r, st) then Assign(r, st) else r
  }

  /** A statement with "WHERE id = ?". */
  function ExecuteOn(rows: Rows, id: int, st: Statement): Rows {
    if id in rows then rows[id := Execute(rows[id], st)] else rows
  }

  /** A statement over the whole table. */
  function ExecuteAll(rows: Rows, st: Statement): Rows {
    map id | id in rows :: Execute(rows[id], st)
  }

  /** DELETE, guarded by a finished status. */
  predicate Deletable(rows: Rows, id: int, userId: int) {
    id in rows && rows[id].userId == userId && IsTerminal(rows[id].status)
  }

  /** The order in which waiting rows are served. */
  predicate ServedBefore(a: ImageGeneration, b: ImageGeneration) {
    a.createdAt < b.createdAt || (a.createdAt == b.createdAt && a.id < b.id)
  }

  predicate IdsMatch(rows: Rows) {
    forall id :: id in rows ==> rows[id].id == id
  }

  /** The single row the polling claim picks. */
  ghost predicate IsOldestClaimable(rows: Rows, now: int, id: int) {
    && id in rows && Claimable(rows[id], now)
    && forall other :: other in rows && other != id && Claimable(rows[other], now)
                       ==> ServedBefore(rows[id], rows[other])
  }

  function LeaseLength(leaseSeconds: int): int {
    if leaseSeconds <= 0 then 900 else leaseSeconds
  }

  /** What a stored row is after `create` has filled in the fields it controls; the other lifecycle
      columns are copied from the request. */
  function Created(g: ImageGeneration, id: int): ImageGeneration {
    g.(id := id, status := Queued, errorMessage := "", completedAt := None, imageUrl := "",
       imageBytes := "", generationTime := 0.0)
  }

  /** The shape every stored row has. */
  predicate RowConsistent(r: ImageGeneration) {
    && (r.worker != "" <==> r.status.Generating?)
    && (r.leaseExpiresAt.Some? <==> r.status.Generating?)
    && (r.completedAt.Some? <==> IsTerminal(r.status))
    && (r.status.Generating? ==> r.startedAt.Some?)
    && (r.cancelledAt.Some? ==> r.status.Cancelled?)
    && !r.status.Unknown?
    && r.imageBytes == ""
  }

  /** What the engine and the service guarantee about the values they bind. */
  predicate WellBound(st: Statement) {
    match st
    case ClaimById(worker, _, _) => worker != ""
    case ClaimOldest(worker, _, _) => worker != ""
    case FinishClaimed(g) =>
      IsTerminal(g.status) && g.completedAt.Some? && g.cancelledAt.None?
    case _ => true
  }

  lemma StatementKeepsRowConsistent(r: ImageGeneration, st: Statement)
    requires RowConsistent(r) && WellBound(st)
    ensures RowConsistent(Execute(r, st))
  {
  }

  /** A created row has the stored shape exactly when the request smuggled in no lease, worker or
      cancellation time. */
  lemma CreatedRowConsistency(g: ImageGeneration, id: int)
    ensures RowConsistent(Created(g, id)) <==>
            g.worker == "" && g.leaseExpiresAt.None? && g.cancelledAt.None?
  {
  }

  /** What a user asked for, without anything that has happened to it since. */
  function AsRequested(r: ImageGeneration, retryCount: int): ImageGeneration {
    ImageGeneration(0, r.userId, r.requestId, Pending, retryCount, r.maxRetries, "", "", "", "", "", "", "", 0.0,
                    r.createdAt, None, None, None, None)
  }

  /** A retried row is as good as new: it is what creating the task afresh would store, but for the
      retry count. */
  lemma RetryStartsOver(r: ImageGeneration, userId: int)
    requires RowConsistent(r) && Matches(r, RetryTask(userId))
    ensures Assign(r, RetryTask(userId)) == Created(AsRequested(r, r.retryCount + 1), r.id)
  {
  }

  /** No statement moves a row to another user, renumbers it or changes its retry limit; only the
      three re-queueing statements raise the retry count, by exactly one.  The start time is set by
      the first claim and forgotten by deferral and retry only. */
  lemma StatementFrame(r: ImageGeneration, st: Statement)
    ensures var r' := Execute(r, st);
            && r'.id == r.id && r'.userId == r.userId && r'.maxRetries == r.maxRetries
            && r'.createdAt == r.createdAt && r'.requestId == r.requestId
            && r'.retryCount == r.retryCount +
                 (if Matches(r, st) && (st.DeferClaimed? || st.RetryTask? || st.RequeueExpired?)
                  then 1 else 0)
    ensures r.status.Success? ==> Execute(r, st) == r
    ensures var r' := Execute(r, st);
            r'.startedAt != r.startedAt ==>
              if r.startedAt.None? then r'.status.Generating? else r'.status.Queued? && !st.RequeueExpired?
  {
  }
}
