/** The repository over the table: one method per statement or short group of statements, each run
    without interruption.  Clock readings are milliseconds and are arguments; the table stores whole
    seconds. */
module ImageRepo {
  import opened Wrappers
  import opened TaskStatus
  import opened ImageRows

  datatype ExpiredLease = ExpiredLease(id: int, userId: int, requeue: bool)

  function DbSeconds(ms: int): int {
    ms / 1000
  }

  function ExpiresAt(nowMs: int, leaseSeconds: int): int {
    DbSeconds(nowMs + 1000 * LeaseLength(leaseSeconds))
  }

  /** The rows the second statement of claimNextTask can return. */
  function ReadBackSet(rows: Rows, worker: string, expiresAt: int): set<int> {
    set id | id in rows && rows[id].status.Generating? && rows[id].worker == worker
             && rows[id].leaseExpiresAt == Some(expiresAt)
  }

  /** The read-back after a polling claim names the claimed row, and only it, exactly when the worker
      left behind no running row whose lease ends in the same second. */
  lemma ReadBackIsExact(rows: Rows, id: int, worker: string, now: int, expiresAt: int)
    requires id in rows && Claimable(rows[id], now)
    ensures ReadBackSet(ExecuteOn(rows, id, ClaimOldest(worker, now, expiresAt)), worker, expiresAt) == {id}
            <==> ReadBackSet(rows, worker, expiresAt) <= {id}
  {
    var rows' := ExecuteOn(rows, id, ClaimOldest(worker, now, expiresAt));
    assert id in ReadBackSet(rows', worker, expiresAt);
    forall other | other != id
      ensures other in ReadBackSet(rows', worker, expiresAt) <==> other in ReadBackSet(rows, worker, expiresAt)
    {
    }
  }

  function SampleRow(id: int): ImageGeneration {
    ImageGeneration(id, 7, "r", Queued, 0, 3, "", "", "", "", "", "", "", 0.0, id, None, None, None, None)
  }

  /** Two claims by one worker within the same second, the first one's row left running: the second
      read-back may return the first row. */
  lemma ReadBackCanReturnAnotherRow(rows: Rows, now: int)
    requires rows == ExecuteOn(map[1 := SampleRow(1), 2 := SampleRow(2)], 1, ClaimOldest("w", now, now + 900))
    ensures IdsMatch(rows) && forall id :: id in rows ==> RowConsistent(rows[id])
    ensures IsOldestClaimable(rows, now, 2)
    ensures 1 in ReadBackSet(ExecuteOn(rows, 2, ClaimOldest("w", now, now + 900)), "w", now + 900)
  {
  }

  predicate Reported(expired: seq<ExpiredLease>, id: int) {
    exists i :: 0 <= i < |expired| && expired[i].id == id
  }

  predicate OncePerRow(expired: seq<ExpiredLease>) {
    forall i, j :: 0 <= i < j < |expired| ==> expired[i].id != expired[j].id
  }

  predicate ReportFits(e: ExpiredLease, rows: Rows, st: Statement) {
    e.id in rows && e.userId == rows[e.id].userId && Matches(rows[e.id], st)
    && e.requeue == st.RequeueExpired?
  }

  /** The row was put back with one more retry, or timed out, as the report says: the former while it
      had retries left. */
  predicate TrueReport(e: ExpiredLease, before: Rows, after: Rows) {
    && e.id in before && e.id in after && e.userId == before[e.id].userId
    && (e.requeue <==> before[e.id].retryCount < before[e.id].maxRetries)
    && (if e.requeue
        then after[e.id].status.Queued? && after[e.id].retryCount == before[e.id].retryCount + 1
        else after[e.id].status.Timeout? && after[e.id].retryCount == before[e.id].retryCount)
  }

  lemma ReportComesTrue(e: ExpiredLease, before: Rows, first: int, second: int)
    requires first <= second
    requires ReportFits(e, before, if e.requeue then RequeueExpired(first) else TimeOutExpired(first))
    ensures TrueReport(e, before, ExecuteAll(ExecuteAll(before, RequeueExpired(second)), TimeOutExpired(second)))
  {
  }

  lemma ReportedAfterPush(expired: seq<ExpiredLease>, e: ExpiredLease)
    ensures forall id :: Reported(expired + [e], id) <==> Reported(expired, id) || id == e.id
  {
    var longer := expired + [e];
    assert longer[|expired|] == e;
    forall id | Reported(expired, id)
      ensures Reported(longer, id)
    {
      var i :| 0 <= i < |expired| && expired[i].id == id;
      assert longer[i].id == id;
    }
  }

  /** The reply to findQueuedTaskIds: every waiting row's id, in the order rows are served. */
  ghost predicate ServedInOrder(rows: Rows, ids: seq<int>) {
    && (forall i :: 0 <= i < |ids| ==> ids[i] in rows && Waiting(rows[ids[i]]))
    && (forall i, j :: 0 <= i < j < |ids| ==> ServedBefore(rows[ids[i]], rows[ids[j]]))
    && (forall id :: id in rows && Waiting(rows[id]) ==> id in ids)
  }

  ghost predicate InServingOrder(rows: Rows, ids: seq<int>) {
    && (forall i :: 0 <= i < |ids| ==> ids[i] in rows)
    && (forall i, j :: 0 <= i < j < |ids| ==> ServedBefore(rows[ids[i]], rows[ids[j]]))
  }

  /** Creation times never fall, and ids rise among equal times. */
  predicate OldestFirst(rows: Rows, ids: seq<int>) {
    && (forall i :: 0 <= i < |ids| ==> ids[i] in rows)
    && (forall i, j :: 0 <= i < j < |ids| ==>
          || rows[ids[i]].createdAt < rows[ids[j]].createdAt
          || (rows[ids[i]].createdAt == rows[ids[j]].createdAt && rows[ids[i]].id < rows[ids[j]].id))
  }

  lemma OrderedIsOldestFirst(rows: Rows, ids: seq<int>)
    requires ServedInOrder(rows, ids)
    ensures OldestFirst(rows, ids)
    ensures forall id :: id in ids <==> id in rows && rows[id].status in {Queued, Pending}
  {
  }

  lemma FoundIn(a: seq<int>, b: seq<int>, k: nat)
    requires (forall id :: id in a ==> id in b) && k < |a|
    ensures exists j :: 0 <= j < |b| && b[j] == a[k]
  {
    var id := a[k];
    assert id in a;
  }

  lemma {:induction false} OrderedListsAgree(rows: Rows, a: seq<int>, b: seq<int>)
    requires InServingOrder(rows, a) && InServingOrder(rows, b)
    requires forall id :: id in a <==> id in b
    ensures a == b
  {
    if a == [] {
      if |b| > 0 {
        FoundIn(b, a, 0);
      }
    } else {
      FoundIn(a, b, 0);
      var j :| 0 <= j < |b| && b[j] == a[0];
      FoundIn(b, a, 0);
      var i :| 0 <= i < |a| && a[i] == b[0];
      assert a[0] == b[0];
      forall id
        ensures id in a[1..] <==> id in b[1..]
      {
        assert id in a <==> id == a[0] || id in a[1..];
        assert id in b <==> id == b[0] || id in b[1..];
      }
      OrderedListsAgree(rows, a[1..], b[1..]);
      assert a == [a[0]] + a[1..] && b == [b[0]] + b[1..];
    }
  }

  /** The order leaves no choice: only one list satisfies it. */
  lemma ServedInOrderIsUnique(rows: Rows, a: seq<int>, b: seq<int>)
    requires ServedInOrder(rows, a) && ServedInOrder(rows, b)
    ensures a == b
  {
    OrderedListsAgree(rows, a, b);
  }

  ghost predicate ServedFirst(rows: Rows, ids: set<int>, id: int)
    requires forall other :: other in ids ==> other in rows
  {
    id in ids && forall other :: other in ids && other != id ==> ServedBefore(rows[id], rows[other])
  }

  /** One more candidate: either it comes first or the earlier first does. */
  lemma FirstOfMore(rows: Rows, ids: set<int>, x: int, y: int)
    requires IdsMatch(rows) && (forall id :: id in ids ==> id in rows)
    requires x in ids && x != y && ServedFirst(rows, ids - {x}, y)
    ensures ServedFirst(rows, ids, if ServedBefore(rows[x], rows[y]) then x else y)
  {
    var best := if ServedBefore(rows[x], rows[y]) then x else y;
    assert rows[x].id == x && rows[y].id == y;
    forall other | other in ids && other != best
      ensures ServedBefore(rows[best], rows[other])
    {
      assert other == x || other == y || ServedBefore(rows[y], rows[other]);
    }
  }

  lemma {:induction false} OldestExists(rows: Rows, ids: set<int>)
    requires IdsMatch(rows) && ids != {} && (forall id :: id in ids ==> id in rows)
    ensures exists id :: ServedFirst(rows, ids, id)
  {
    assert (forall x :: x !in ids) ==> ids == {};
    var x :| x in ids;
    if ids == {x} {
      assert ServedFirst(rows, ids, x);
    } else {
      OldestExists(rows, ids - {x});
      var y :| ServedFirst(rows, ids - {x}, y);
      FirstOfMore(rows, ids, x, y);
    }
  }

  /** No waiting row, and none whose lease has ended, is older than this one, equal age settled by id;
      and this one, itself waiting or without a live lease, is now the worker's. */
  predicate TakesOldest(before: Rows, after: Rows, id: int, worker: string, nowMs: int, leaseSeconds: int) {
    && id in before
    && (|| before[id].status in {Queued, Pending}
        || (before[id].status == Generating
            && (before[id].leaseExpiresAt.Some? ==> before[id].leaseExpiresAt.value < nowMs / 1000)))
    && (forall other :: other in before && other != id ==>
          || (before[other].status !in {Queued, Pending, Generating})
          || (before[other].status == Generating
              && before[other].leaseExpiresAt.Some? && before[other].leaseExpiresAt.value >= nowMs / 1000)
          || before[id].createdAt < before[other].createdAt
          || (before[id].createdAt == before[other].createdAt && id < other))
    && after == before[id := before[id].(
         status := Generating, worker := worker, failureCode := "", errorMessage := "",
         startedAt := if before[id].startedAt.None? then Some(nowMs / 1000) else before[id].startedAt,
         leaseExpiresAt := Some((nowMs + 1000 * (if leaseSeconds <= 0 then 900 else leaseSeconds)) / 1000))]
  }

  lemma OldestClaimTakesOldest(rows: Rows, id: int, worker: string, nowMs: int, leaseSeconds: int)
    requires IdsMatch(rows) && IsOldestClaimable(rows, DbSeconds(nowMs), id)
    ensures TakesOldest(rows, ExecuteOn(rows, id, ClaimOldest(worker, DbSeconds(nowMs),
                                                              ExpiresAt(nowMs, leaseSeconds))),
                        id, worker, nowMs, leaseSeconds)
  {
    assert rows[id].id == id;
    forall other | other in rows && other != id && Claimable(rows[other], DbSeconds(nowMs))
      ensures rows[id].createdAt < rows[other].createdAt
              || (rows[id].createdAt == rows[other].createdAt && id < other)
    {
      assert ServedBefore(rows[id], rows[other]) && rows[other].id == other;
    }
  }

  /** ORDER BY created_at, id LIMIT 1. */
  method PickFirst(rows: Rows, ids: set<int>) returns (first: int)
    requires IdsMatch(rows) && ids != {} && (forall id :: id in ids ==> id in rows)
    ensures ServedFirst(rows, ids, first)
  {
    OldestExists(rows, ids);
    ghost var oldest :| ServedFirst(rows, ids, oldest);
    first :| first in ids && forall other :: other in ids && other != first ==> ServedBefore(rows[first], rows[other]);
  }

  class ImageRepo {
    var rows: Rows
    var nextId: int

    ghost predicate Valid()
      reads this
    {
      && 0 < nextId && IdsMatch(rows)
      && forall id :: id in rows ==> 0 < id < nextId && RowConsistent(rows[id])
    }

    constructor ()
      ensures Valid() && rows == map[]
    {
      rows, nextId := map[], 1;
    }

    method Insert(g: ImageGeneration) returns (id: int)
      requires Valid() && g.worker == "" && g.leaseExpiresAt.None? && g.cancelledAt.None?
      modifies this
      ensures Valid() && id !in old(rows)
      ensures id < nextId && rows == old(rows)[id := Created(g, id)]
      ensures rows[id] == g.(id := id, status := Queued, errorMessage := "", completedAt := None, imageUrl := "",
                             imageBytes := "", generationTime := 0.0)
    {
      id := nextId;
      CreatedRowConsistency(g, id);
      rows, nextId := rows[id := Created(g, id)], id + 1;
    }

    method ClaimNextTask(worker: string, nowMs: int, leaseSeconds: int) returns (task: Option<ImageGeneration>)
      requires Valid() && worker != ""
      modifies this`rows
      ensures Valid()
      ensures task.None? <==>
                forall id :: id in old(rows) ==>
                  && old(rows)[id].status !in {Queued, Pending}
                  && (old(rows)[id].status == Generating ==>
                        old(rows)[id].leaseExpiresAt.Some? && old(rows)[id].leaseExpiresAt.value >= nowMs / 1000)
      ensures task.None? ==> rows == old(rows)
      ensures task.Some? ==>
                exists id ::
                  && TakesOldest(old(rows), rows, id, worker, nowMs, leaseSeconds)
                  && IsOldestClaimable(old(rows), DbSeconds(nowMs), id)
                  && rows == ExecuteOn(old(rows), id,
                                       ClaimOldest(worker, DbSeconds(nowMs), ExpiresAt(nowMs, leaseSeconds)))
                  && task.value.id in ReadBackSet(rows, worker, ExpiresAt(nowMs, leaseSeconds))
                  && task.value.id in rows && task.value == rows[task.value.id]
                  && task.value.status == Generating && task.value.worker == worker
                  && task.value.leaseExpiresAt == rows[id].leaseExpiresAt
                  && (ReadBackSet(old(rows), worker, ExpiresAt(nowMs, leaseSeconds)) <= {id} ==> task.value.id == id)
    {
      var now, expiresAt := DbSeconds(nowMs), ExpiresAt(nowMs, leaseSeconds);
      var eligible := set id | id in rows && Claimable(rows[id], now);
      assert forall id :: id in rows && Claimable(rows[id], now) ==> id in eligible;
      if eligible == {} {
        return None;
      }
      ghost var before := rows;
      var id := PickFirst(rows, eligible);
      assert IsOldestClaimable(before, now, id);
      ReadBackIsExact(rows, id, worker, now, expiresAt);
      rows := ExecuteOn(rows, id, ClaimOldest(worker, now, expiresAt));
      StatementKeepsRowConsistent(before[id], ClaimOldest(worker, now, expiresAt));
      OldestClaimTakesOldest(before, id, worker, nowMs, leaseSeconds);
      assert id in ReadBackSet(rows, worker, expiresAt);
      var found :| found in ReadBackSet(rows, worker, expiresAt);
      return Some(rows[found]);
    }

    method ClaimTaskById(id: int, worker: string, nowMs: int, leaseSeconds: int) returns (task: Option<ImageGeneration>)
      requires Valid() && worker != ""
      modifies this`rows
      ensures Valid()
      ensures task.Some? <==> id in old(rows) && old(rows)[id].status in {Queued, Pending}
      ensures task.None? ==> rows == old(rows)
      ensures task.Some? ==>
                && rows == old(rows)[id := task.value]
                && task.value == old(rows)[id].(
                     status := Generating, worker := worker, failureCode := "", errorMessage := "",
                     startedAt := if old(rows)[id].startedAt.None? then Some(nowMs / 1000)
                                  else old(rows)[id].startedAt,
                     leaseExpiresAt :=
                       Some((nowMs + 1000 * (if leaseSeconds <= 0 then 900 else leaseSeconds)) / 1000))
      ensures rows == ExecuteOn(old(rows), id, ClaimById(worker, DbSeconds(nowMs), ExpiresAt(nowMs, leaseSeconds)))
    {
      if id !in rows || !Waiting(rows[id]) {
        return None;
      }
      StatementKeepsRowConsistent(rows[id], ClaimById(worker, DbSeconds(nowMs), ExpiresAt(nowMs, leaseSeconds)));
      rows := ExecuteOn(rows, id, ClaimById(worker, DbSeconds(nowMs), ExpiresAt(nowMs, leaseSeconds)));
      return Some(rows[id]);
    }

    /** The statements that report whether a row matched: renew, finish, defer, cancel and retry. */
    method Update(id: int, st: Statement) returns (affected: bool)
      requires Valid() && WellBound(st)
      requires st.RenewLease? || st.FinishClaimed? || st.DeferClaimed? || st.CancelTask? || st.RetryTask?
      modifies this`rows
      ensures Valid()
      ensures rows == ExecuteOn(old(rows), id, st)
      ensures affected <==> id in old(rows) && Matches(old(rows)[id], st)
      ensures affected ==> rows[id] == Assign(old(rows)[id], st)
    {
      affected := id in rows && Matches(rows[id], st);
      if affected {
        StatementKeepsRowConsistent(rows[id], st);
        rows := rows[id := Assign(rows[id], st)];
      }
    }

    /** The lease of a row that the worker still generates, and nothing else, moves to its new end. */
    method RenewLease(id: int, userId: int, worker: string, nowMs: int, leaseSeconds: int) returns (renewed: bool)
      requires Valid()
      modifies this`rows
      ensures Valid()
      ensures renewed <==> id in old(rows) && old(rows)[id].userId == userId && old(rows)[id].status == Generating
                           && old(rows)[id].worker == worker
      ensures rows == if !renewed then old(rows)
                      else old(rows)[id := old(rows)[id].(leaseExpiresAt :=
                             Some((nowMs + 1000 * (if leaseSeconds <= 0 then 900 else leaseSeconds)) / 1000))]
      ensures rows == ExecuteOn(old(rows), id,
                                Statement.RenewLease(userId, worker, ExpiresAt(nowMs, leaseSeconds)))
    {
      renewed := Update(id, Statement.RenewLease(userId, worker, ExpiresAt(nowMs, leaseSeconds)));
    }

    /** The outcome is stored, and worker and lease go, while the worker still generates the row. */
    method FinishClaimedTask(g: ImageGeneration) returns (finished: bool)
      requires Valid() && g.status in {Success, Failed, Cancelled, Timeout}
      requires g.completedAt.Some? && g.cancelledAt.None?
      modifies this`rows
      ensures Valid()
      ensures finished <==> g.id in old(rows) && old(rows)[g.id].userId == g.userId
                            && old(rows)[g.id].status == Generating && old(rows)[g.id].worker == g.worker
      ensures rows == if !finished then old(rows)
                      else old(rows)[g.id := old(rows)[g.id].(
                             status := g.status, imageUrl := g.imageUrl, errorMessage := g.errorMessage,
                             generationTime := g.generationTime, completedAt := g.completedAt,
                             cancelledAt := g.cancelledAt, failureCode := g.failureCode,
                             thumbnailUrl := g.thumbnailUrl, storageKey := g.storageKey,
                             leaseExpiresAt := None, worker := "")]
      ensures rows == ExecuteOn(old(rows), g.id, FinishClaimed(g))
    {
      finished := Update(g.id, FinishClaimed(g));
    }

    /** The row waits again, with one more retry spent, while the worker still generates it. */
    method DeferClaimedTaskForModelHealth(id: int, userId: int, worker: string, failureCode: string,
                                          errorMessage: string)
      returns (deferred: bool)
      requires Valid()
      modifies this`rows
      ensures Valid()
      ensures deferred <==> id in old(rows) && old(rows)[id].userId == userId && old(rows)[id].status == Generating
                            && old(rows)[id].worker == worker
      ensures rows == if !deferred then old(rows)
                      else old(rows)[id := old(rows)[id].(
                             status := Queued, retryCount := old(rows)[id].retryCount + 1,
                             failureCode := failureCode, errorMessage := errorMessage,
                             worker := "", leaseExpiresAt := None, startedAt := None)]
      ensures rows == ExecuteOn(old(rows), id, DeferClaimed(userId, worker, failureCode, errorMessage))
    {
      deferred := Update(id, DeferClaimed(userId, worker, failureCode, errorMessage));
    }

    method CancelByIdAndUserId(id: int, userId: int, nowMs: int) returns (cancelled: bool)
      requires Valid()
      modifies this`rows
      ensures Valid()
      ensures cancelled <==> id in old(rows) && old(rows)[id].userId == userId
                             && old(rows)[id].status in {Pending, Queued, Generating}
      ensures rows == if !cancelled then old(rows)
                      else old(rows)[id := old(rows)[id].(
                             status := Cancelled, cancelledAt := Some(nowMs / 1000), completedAt := Some(nowMs / 1000),
                             worker := "", leaseExpiresAt := None, errorMessage := "", failureCode := "")]
      ensures rows == ExecuteOn(old(rows), id, CancelTask(userId, DbSeconds(nowMs)))
    {
      cancelled := Update(id, CancelTask(userId, DbSeconds(nowMs)));
    }

    /** Nothing of the earlier attempt stays but the count. */
    method RetryByIdAndUserId(id: int, userId: int) returns (retried: bool)
      requires Valid()
      modifies this`rows
      ensures Valid()
      ensures retried <==> id in old(rows) && old(rows)[id].userId == userId
                           && old(rows)[id].status in {Failed, Timeout, Cancelled}
                           && old(rows)[id].retryCount < old(rows)[id].maxRetries
      ensures rows == if !retried then old(rows)
                      else old(rows)[id := old(rows)[id].(
                             status := Queued, retryCount := old(rows)[id].retryCount + 1,
                             failureCode := "", errorMessage := "", imageUrl := "", thumbnailUrl := "",
                             storageKey := "", generationTime := 0.0, worker := "", leaseExpiresAt := None,
                             startedAt := None, completedAt := None, cancelledAt := None)]
      ensures rows == ExecuteOn(old(rows), id, RetryTask(userId))
    {
      retried := Update(id, RetryTask(userId));
    }

    method DeleteByIdAndUserId(id: int, userId: int) returns (deleted: bool)
      requires Valid()
      modifies this`rows
      ensures Valid()
      ensures deleted <==> id in old(rows) && old(rows)[id].userId == userId
                           && old(rows)[id].status in {Success, Failed, Cancelled, Timeout}
      ensures rows == if deleted then old(rows) - {id} else old(rows)
    {
      deleted := Deletable(rows, id, userId);
      if deleted {
        rows := rows - {id};
      }
    }

    method FindQueuedTaskIds() returns (ids: seq<int>)
      requires Valid()
      ensures forall id :: id in ids <==> id in rows && rows[id].status in {Queued, Pending}
      ensures OldestFirst(rows, ids)
      ensures ServedInOrder(rows, ids)
    {
      ids := [];
      var left := set id | id in rows && Waiting(rows[id]);
      while left != {}
        invariant forall id :: id in left ==> id in rows && Waiting(rows[id])
        invariant forall id :: id in rows && Waiting(rows[id]) ==> id in left || id in ids
        invariant forall i :: 0 <= i < |ids| ==> ids[i] in rows && Waiting(rows[ids[i]])
        invariant forall i, j :: 0 <= i < j < |ids| ==> ServedBefore(rows[ids[i]], rows[ids[j]])
        invariant forall i, id :: 0 <= i < |ids| && id in left ==> ServedBefore(rows[ids[i]], rows[id])
        decreases |left|
      {
        var next := PickFirst(rows, left);
        ids := ids + [next];
        left := left - {next};
      }
    }

    /** Pushes a report for every row the statement would move. */
    method FetchExpired(st: Statement, soFar: seq<ExpiredLease>) returns (expired: seq<ExpiredLease>)
      requires Valid() && (st.RequeueExpired? || st.TimeOutExpired?)
      requires forall id :: id in rows && Matches(rows[id], st) ==> !Reported(soFar, id)
      requires OncePerRow(soFar)
      ensures soFar <= expired && OncePerRow(expired)
      ensures forall i :: |soFar| <= i < |expired| ==> ReportFits(expired[i], rows, st)
      ensures forall id :: Reported(expired, id) <==>
                Reported(soFar, id) || (id in rows && Matches(rows[id], st))
    {
      expired := soFar;
      var pending := set id | id in rows && Matches(rows[id], st);
      while pending != {}
        invariant forall id :: id in pending ==> id in rows && Matches(rows[id], st) && !Reported(expired, id)
        invariant soFar <= expired && OncePerRow(expired)
        invariant forall i :: |soFar| <= i < |expired| ==> ReportFits(expired[i], rows, st)
        invariant forall id :: Reported(expired, id) || id in pending <==>
                    Reported(soFar, id) || (id in rows && Matches(rows[id], st))
        decreases |pending|
      {
        assert (forall id :: id !in pending) ==> pending == {};
        var id :| id in pending;
        ReportedAfterPush(expired, ExpiredLease(id, rows[id].userId, st.RequeueExpired?));
        expired := expired + [ExpiredLease(id, rows[id].userId, st.RequeueExpired?)];
        pending := pending - {id};
      }
    }

    /** One scan with its two clock readings, the selects' and the updates'.  No row is reported
        twice and every report is true.  A row is reported exactly when its lease had run out at the
        first reading, and moved exactly when it had run out at the second, so the scan moves a row
        without reporting it exactly when the lease ran out in between. */
    method ExpireLeasesReturningExpired(selectMs: int, updateMs: int) returns (expired: seq<ExpiredLease>)
      requires Valid() && selectMs <= updateMs
      modifies this`rows
      ensures Valid()
      ensures rows == ExecuteAll(ExecuteAll(old(rows), RequeueExpired(DbSeconds(updateMs))),
                                 TimeOutExpired(DbSeconds(updateMs)))
      ensures OncePerRow(expired)
      ensures forall i :: 0 <= i < |expired| ==> TrueReport(expired[i], old(rows), rows)
      ensures forall id :: Reported(expired, id) <==>
                id in old(rows) && old(rows)[id].status == Generating
                && old(rows)[id].leaseExpiresAt.value < selectMs / 1000
      ensures rows.Keys == old(rows).Keys
      ensures forall id :: id in old(rows) ==>
                var r := old(rows)[id];
                rows[id] ==
                  if r.status != Generating || r.leaseExpiresAt.value >= updateMs / 1000 then r
                  else if r.retryCount < r.maxRetries then
                    r.(status := Queued, worker := "", leaseExpiresAt := None, retryCount := r.retryCount + 1,
                       failureCode := "lease_expired",
                       errorMessage := "worker lease expired, re-queued for retry")
                  else
                    r.(status := Timeout, worker := "", leaseExpiresAt := None, completedAt := Some(updateMs / 1000),
                       failureCode := "lease_expired_max_retries",
                       errorMessage := "worker lease expired and max retries reached")
    {
      var first, second := DbSeconds(selectMs), DbSeconds(updateMs);
      expired := FetchExpired(RequeueExpired(first), []);
      ghost var requeues := |expired|;
      expired := FetchExpired(TimeOutExpired(first), expired);
      ghost var before := rows;
      rows := ExecuteAll(rows, RequeueExpired(second));
      rows := ExecuteAll(rows, TimeOutExpired(second));
      forall id | id in rows
        ensures rows[id] == Execute(Execute(before[id], RequeueExpired(second)), TimeOutExpired(second))
        ensures RowConsistent(rows[id])
      {
        StatementKeepsRowConsistent(before[id], RequeueExpired(second));
        StatementKeepsRowConsistent(Execute(before[id], RequeueExpired(second)), TimeOutExpired(second));
      }
      forall i | 0 <= i < |expired|
        ensures TrueReport(expired[i], before, rows)
      {
        if i < requeues {
          assert ReportFits(expired[i], before, RequeueExpired(first));
        } else {
          assert ReportFits(expired[i], before, TimeOutExpired(first));
        }
        ReportComesTrue(expired[i], before, first, second);
      }
    }
  }
}
