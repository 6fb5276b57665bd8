/** The task engine's threads as they run when nothing interferes: one pass of a worker and one round
    of the lease scanner, each shown to be a run of the protocol.

    The cache invalidations that accompany every change of a row are in ImageService, the renewals of
    a lease keeper in TaskProtocol and LeaseTiming. */
module TaskEngine {
  import opened Wrappers
  import opened TaskStatus
  import opened ImageRows
  import opened TaskQueue
  import opened Decimals
  import Repo = ImageRepo
  import Gate = ModelHealthGate
  import Gen = GenerationClient
  import Protocol = TaskProtocol
  import Safety = TaskSafety

  // ---- Methods and protocol ----

  /** A protocol state whose table is this one. */
  predicate Shows(s: Protocol.System, rows: Rows) {
    Protocol.Table(s.cells) == rows
  }

  /** From every protocol state that shows `before` and where the worker is idle, these events lead
      to one that shows `after` and where it is idle again. */
  ghost predicate Simulates(events: seq<Protocol.Event>, before: Rows, after: Rows, worker: string) {
    forall s: Protocol.System :: Shows(s, before) && Protocol.StateOf(s, worker).Idle? ==>
      Shows(Protocol.Run(s, events), after) && Protocol.StateOf(Protocol.Run(s, events), worker).Idle?
  }

  /** The worker holds a claim on this task and is about to consult the health gate. */
  predicate HoldsTask(s: Protocol.System, worker: string, task: ImageGeneration) {
    Protocol.StateOf(s, worker).Holding? && Protocol.StateOf(s, worker).claim.task == task
  }

  ghost predicate SimulatesFrom(task: ImageGeneration, events: seq<Protocol.Event>, before: Rows, after: Rows,
                                worker: string)
  {
    forall s: Protocol.System :: Shows(s, before) && HoldsTask(s, worker, task) ==>
      Shows(Protocol.Run(s, events), after) && Protocol.StateOf(Protocol.Run(s, events), worker).Idle?
  }

  lemma {:induction false} RunAppend(s: Protocol.System, first: seq<Protocol.Event>, more: seq<Protocol.Event>)
    ensures Protocol.Run(s, first + more) == Protocol.Run(Protocol.Run(s, first), more)
    decreases |first|
  {
    if first == [] {
      assert first + more == more;
    } else {
      assert (first + more)[0] == first[0] && (first + more)[1..] == first[1..] + more;
      RunAppend(Protocol.Apply(s, first[0]), first[1..], more);
    }
  }

  lemma RunOne(s: Protocol.System, e: Protocol.Event)
    ensures Protocol.Run(s, [e]) == Protocol.Apply(s, e)
  {
    assert [e][1..] == [];
    assert Protocol.Run(Protocol.Apply(s, e), []) == Protocol.Apply(s, e);
  }

  lemma RunTwo(s: Protocol.System, e: Protocol.Event, f: Protocol.Event)
    ensures Protocol.Run(s, [e, f]) == Protocol.Apply(Protocol.Apply(s, e), f)
  {
    RunAppend(s, [e], [f]);
    assert [e] + [f] == [e, f];
    RunOne(s, e);
    RunOne(Protocol.Apply(s, e), f);
  }

  lemma FloorShifts(ms: int, seconds: int)
    ensures Repo.DbSeconds(ms + 1000 * seconds) == Repo.DbSeconds(ms) + seconds
  {
  }

  /** What the gate's statement does to the table. */
  function AfterGate(rows: Rows, task: ImageGeneration, worker: string, d: Gate.Decision, now: int): Rows {
    var st := Protocol.GateStatement(task, worker, d, now);
    if st.None? then rows else ExecuteOn(rows, task.id, st.value)
  }

  lemma GateIsPassGate(s: Protocol.System, worker: string, task: ImageGeneration, health: Gate.Health, now: int)
    requires HoldsTask(s, worker, task)
    ensures var s' := Protocol.Apply(s, Protocol.PassGate(worker, health, now));
            var d := Gate.DecideForGenerate(health, task.retryCount);
            && Shows(s', AfterGate(Protocol.Table(s.cells), task, worker, d, now))
            && (if d.Proceed? then Protocol.StateOf(s', worker) == Protocol.Running(Protocol.StateOf(s, worker).claim)
                else Protocol.StateOf(s', worker).Idle?)
  {
    var st := Protocol.GateStatement(task, worker, Gate.DecideForGenerate(health, task.retryCount), now);
    if st.Some? {
      Safety.TouchIsExecute(s.cells, task.id, st.value);
    }
  }

  lemma FinishIsRun(s: Protocol.System, worker: string, task: ImageGeneration, result: ImageGeneration)
    requires Protocol.StateOf(s, worker).Running? && Protocol.StateOf(s, worker).claim.task == task
    requires Gen.FinalFor(task, result)
    ensures var s' := Protocol.Run(s, [Protocol.FinishTask(worker, result), Protocol.JoinKeeper(worker)]);
            && Shows(s', ExecuteOn(Protocol.Table(s.cells), task.id, FinishClaimed(result)))
            && Protocol.StateOf(s', worker).Idle?
  {
    RunTwo(s, Protocol.FinishTask(worker, result), Protocol.JoinKeeper(worker));
    Safety.TouchIsExecute(s.cells, task.id, FinishClaimed(result));
  }

  lemma GateAloneSimulates(task: ImageGeneration, before: Rows, worker: string, health: Gate.Health, now: int)
    requires !Gate.DecideForGenerate(health, task.retryCount).Proceed?
    ensures SimulatesFrom(task, [Protocol.PassGate(worker, health, now)], before,
                          AfterGate(before, task, worker, Gate.DecideForGenerate(health, task.retryCount), now), worker)
  {
    forall s: Protocol.System | Shows(s, before) && HoldsTask(s, worker, task)
      ensures var e := Protocol.PassGate(worker, health, now);
              Protocol.Run(s, [e]) == Protocol.Apply(s, e)
      ensures Shows(Protocol.Run(s, [Protocol.PassGate(worker, health, now)]),
                    AfterGate(before, task, worker, Gate.DecideForGenerate(health, task.retryCount), now))
      ensures Protocol.StateOf(Protocol.Run(s, [Protocol.PassGate(worker, health, now)]), worker).Idle?
    {
      RunOne(s, Protocol.PassGate(worker, health, now));
      GateIsPassGate(s, worker, task, health, now);
    }
  }

  function FullPass(worker: string, health: Gate.Health, now: int, result: ImageGeneration): seq<Protocol.Event> {
    [Protocol.PassGate(worker, health, now)] + [Protocol.FinishTask(worker, result), Protocol.JoinKeeper(worker)]
  }

  lemma FullPassSimulates(task: ImageGeneration, before: Rows, worker: string, health: Gate.Health, now: int,
                          result: ImageGeneration)
    requires Gate.DecideForGenerate(health, task.retryCount).Proceed? && Gen.FinalFor(task, result)
    ensures SimulatesFrom(task, FullPass(worker, health, now, result), before,
                          ExecuteOn(before, task.id, FinishClaimed(result)), worker)
  {
    var e := Protocol.PassGate(worker, health, now);
    forall s: Protocol.System | Shows(s, before) && HoldsTask(s, worker, task)
      ensures Shows(Protocol.Run(s, FullPass(worker, health, now, result)),
                    ExecuteOn(before, task.id, FinishClaimed(result)))
      ensures Protocol.StateOf(Protocol.Run(s, FullPass(worker, health, now, result)), worker).Idle?
    {
      RunAppend(s, [e], [Protocol.FinishTask(worker, result), Protocol.JoinKeeper(worker)]);
      RunOne(s, e);
      GateIsPassGate(s, worker, task, health, now);
      FinishIsRun(Protocol.Apply(s, e), worker, task, result);
    }
  }

  /** A claim that took effect and was read back leaves the worker holding the row it read. */
  lemma ClaimLeadsToHolding(claim: Protocol.Event, worker: string, before: Rows, claimed: Rows, task: ImageGeneration,
                            events: seq<Protocol.Event>, after: Rows)
    requires task.id in claimed && claimed[task.id] == task && task.status.Generating? && task.worker == worker
    requires
      || (claim.TryClaimById? && claim.w == worker && claim.id == task.id
          && task.id in before && Waiting(before[task.id])
          && claimed == ExecuteOn(before, task.id,
                                  ClaimById(worker, claim.now, claim.now + LeaseLength(claim.leaseSeconds))))
      || (claim.TryClaimOldest? && claim.w == worker && IsOldestClaimable(before, claim.now, claim.id)
          && task.leaseExpiresAt == Some(claim.now + LeaseLength(claim.leaseSeconds))
          && claimed == ExecuteOn(before, claim.id,
                                  ClaimOldest(worker, claim.now, claim.now + LeaseLength(claim.leaseSeconds))))
    requires SimulatesFrom(task, events, claimed, after, worker)
    ensures Simulates([claim, Protocol.ReadBack(worker, task.id)] + events, before, after, worker)
  {
    var readBack := Protocol.ReadBack(worker, task.id);
    forall s: Protocol.System | Shows(s, before) && Protocol.StateOf(s, worker).Idle?
      ensures Shows(Protocol.Run(s, [claim, readBack] + events), after)
      ensures Protocol.StateOf(Protocol.Run(s, [claim, readBack] + events), worker).Idle?
    {
      RunAppend(s, [claim, readBack], events);
      RunTwo(s, claim, readBack);
      var s1 := Protocol.Apply(s, claim);
      var st := if claim.TryClaimById? then ClaimById(worker, claim.now, claim.now + LeaseLength(claim.leaseSeconds))
                else ClaimOldest(worker, claim.now, claim.now + LeaseLength(claim.leaseSeconds));
      Safety.TouchIsExecute(s.cells, claim.id, st);
      assert Shows(s1, claimed);
      assert s1.cells[task.id].row == claimed[task.id];
      assert Protocol.ReadsBack(s1, worker, task.id);
      assert HoldsTask(Protocol.Apply(s1, readBack), worker, task);
      assert Shows(Protocol.Apply(s1, readBack), claimed);
    }
  }

  lemma ClaimByIdSimulates(worker: string, nowMs: int, leaseSeconds: int, before: Rows, claimed: Rows,
                           task: ImageGeneration, rest: seq<Protocol.Event>, after: Rows)
    returns (events: seq<Protocol.Event>)
    requires task.id in before && Waiting(before[task.id]) && task.id in claimed && claimed[task.id] == task
    requires OwnedBy(task, task.userId, worker)
    requires claimed == ExecuteOn(before, task.id,
                                  ClaimById(worker, Repo.DbSeconds(nowMs), Repo.ExpiresAt(nowMs, leaseSeconds)))
    requires SimulatesFrom(task, rest, claimed, after, worker)
    ensures Simulates(events, before, after, worker)
  {
    FloorShifts(nowMs, LeaseLength(leaseSeconds));
    var claim := Protocol.TryClaimById(worker, task.id, Repo.DbSeconds(nowMs), leaseSeconds);
    ClaimLeadsToHolding(claim, worker, before, claimed, task, rest, after);
    events := [claim, Protocol.ReadBack(worker, task.id)] + rest;
  }

  lemma ClaimOldestSimulates(worker: string, nowMs: int, leaseSeconds: int, before: Rows, claimed: Rows,
                             task: ImageGeneration, rest: seq<Protocol.Event>, after: Rows)
    returns (events: seq<Protocol.Event>)
    requires exists id ::
               && IsOldestClaimable(before, Repo.DbSeconds(nowMs), id)
               && claimed == ExecuteOn(before, id, ClaimOldest(worker, Repo.DbSeconds(nowMs),
                                                               Repo.ExpiresAt(nowMs, leaseSeconds)))
    requires task.id in Repo.ReadBackSet(claimed, worker, Repo.ExpiresAt(nowMs, leaseSeconds))
    requires claimed[task.id] == task
    requires SimulatesFrom(task, rest, claimed, after, worker)
    ensures Simulates(events, before, after, worker)
  {
    FloorShifts(nowMs, LeaseLength(leaseSeconds));
    var id :|
      && IsOldestClaimable(before, Repo.DbSeconds(nowMs), id)
      && claimed == ExecuteOn(before, id, ClaimOldest(worker, Repo.DbSeconds(nowMs),
                                                      Repo.ExpiresAt(nowMs, leaseSeconds)));
    var claim := Protocol.TryClaimOldest(worker, id, Repo.DbSeconds(nowMs), leaseSeconds);
    ClaimLeadsToHolding(claim, worker, before, claimed, task, rest, after);
    events := [claim, Protocol.ReadBack(worker, task.id)] + rest;
  }

  lemma NothingSimulates(before: Rows, worker: string)
    ensures Simulates([], before, before, worker)
  {
  }

  // ---- The engine ----

  /** What surrounds one pass of a worker: whether Redis answers once it has a task, the health
      report, the generation's inputs, and the clock when the gate decides and at the end. */
  datatype Surroundings = Surroundings(
    stillUp: bool,
    health: Gate.Health,
    inputs: Gen.Inputs,
    gateNow: int,
    endMs: int)

  /** A configured lease is at least thirty seconds long. */
  type LeaseSeconds = seconds: int | 30 <= seconds witness 30

  /** The row is still being generated for this user under this worker's name. */
  predicate OwnsRow(rows: Rows, task: ImageGeneration, worker: string) {
    && task.id in rows && rows[task.id].userId == task.userId
    && rows[task.id].status == Generating && rows[task.id].worker == worker
  }

  /** A waiting row, and no other, has been worked on: it is final, or waits with one more retry. */
  predicate WorkedOff(before: Rows, after: Rows, id: int) {
    && id in before && after.Keys == before.Keys
    && (forall other :: other in before && other != id ==> after[other] == before[other])
    && after[id].worker == "" && after[id].leaseExpiresAt == None && after[id].userId == before[id].userId
    && (|| (after[id].status in {Success, Failed, Cancelled, Timeout} && after[id].retryCount == before[id].retryCount)
        || (after[id].status == Queued && after[id].retryCount == before[id].retryCount + 1))
  }

  /** What the health gate leaves of the row of a task it refuses. */
  function RefusedRow(r: ImageGeneration, task: ImageGeneration, ctx: Surroundings): ImageGeneration {
    var detail := if ctx.health.detail == "" then "" else ": " + ctx.health.detail;
    if task.retryCount >= 9 then
      r.(status := Failed, failureCode := "model_service_unavailable",
         errorMessage := "model service unavailable" + detail, completedAt := Some(ctx.gateNow), cancelledAt := None,
         imageUrl := task.imageUrl, thumbnailUrl := task.thumbnailUrl, storageKey := task.storageKey,
         generationTime := task.generationTime, worker := "", leaseExpiresAt := None)
    else
      r.(status := Queued, failureCode := "model_service_unavailable",
         errorMessage := (if Lower(ctx.health.status) == "loading" then "model service is loading"
                          else if Lower(ctx.health.status) == "busy" then "model service is busy"
                          else "model service is unhealthy") + detail,
         retryCount := r.retryCount + 1, worker := "", leaseExpiresAt := None, startedAt := None)
  }

  class TaskEngine {
    const repo: Repo.ImageRepo
    const redis: RedisClient
    const leaseSeconds: LeaseSeconds

    constructor (repo: Repo.ImageRepo, redis: RedisClient, leaseSeconds: int)
      ensures this.repo == repo && this.redis == redis
      ensures this.leaseSeconds == if leaseSeconds < 30 then 30 else leaseSeconds
    {
      this.repo, this.redis := repo, redis;
      this.leaseSeconds := if leaseSeconds < 30 then 30 else leaseSeconds as LeaseSeconds;
    }

    /** A task that only sits in the table when Redis is down is found by polling. */
    method Enqueue(id: int, redisUp: bool)
      requires 0 < id <= INT64_MAX
      modifies redis`queue
      ensures Served(redis.queue) == Served(old(redis.queue)) + (if redisUp then [Some(id)] else [])
    {
      if redisUp {
        redis.EnqueueTask(id);
      }
    }

    method ReleaseRedisLease(id: int, worker: string, now: int, redisUp: bool)
      modifies redis`leases
      ensures redis.leases == if redisUp && old(redis.Holder(id, now)) == Some(worker)
                              then old(redis.leases) - {id} else old(redis.leases)
    {
      if redisUp {
        var released := redis.ReleaseLease(id, worker, now);
      }
    }

    /** The gate opens for a service that is well, or busy with something that leaves room.  Otherwise
        the claim's row, if it is still the claim's, waits with one more retry, or after nine retries is
        failed; a waiting task is queued again and the worker pauses. */
    method ApplyModelHealthGate(task: ImageGeneration, worker: string, ctx: Surroundings)
      returns (proceed: bool, pauseSeconds: int)
      requires repo.Valid() && 0 < task.id <= INT64_MAX && task.worker == worker && task.cancelledAt.None?
      modifies repo`rows, redis
      ensures repo.Valid()
      ensures proceed <==>
                || Lower(ctx.health.status) in {"healthy", "ok", "success"}
                || (Lower(ctx.health.status) == "busy" &&
                    (|| Lower(ctx.health.activeKind) in {"", "none"}
                     || (ctx.health.maxConcurrentGenerations > 0
                         && ctx.health.activeGenerations < ctx.health.maxConcurrentGenerations)))
      ensures proceed || !OwnsRow(old(repo.rows), task, worker) ==> repo.rows == old(repo.rows) && pauseSeconds == 0
      ensures !proceed && OwnsRow(old(repo.rows), task, worker) ==>
                var r := old(repo.rows)[task.id];
                var r' := RefusedRow(r, task, ctx);
                && repo.rows == old(repo.rows)[task.id := r']
                && pauseSeconds == (if task.retryCount >= 9 then 0
                                    else if Lower(ctx.health.status) == "loading" then 30 else 5)
      ensures repo.rows == AfterGate(old(repo.rows), task, worker,
                                     Gate.DecideForGenerate(ctx.health, task.retryCount), ctx.gateNow)
      ensures proceed <==> Gate.DecideForGenerate(ctx.health, task.retryCount).Proceed?
      ensures Served(redis.queue) ==
                Served(old(redis.queue)) +
                (if !proceed && ctx.stillUp && OwnsRow(old(repo.rows), task, worker) && task.retryCount < 9
                 then [Some(task.id)] else [])
      ensures redis.leases == if !proceed && ctx.stillUp && old(redis.Holder(task.id, ctx.endMs)) == Some(worker)
                              then old(redis.leases) - {task.id} else old(redis.leases)
    {
      Gate.DecisionTable(ctx.health, task.retryCount);
      var d := Gate.DecideForGenerate(ctx.health, task.retryCount);
      match d {
        case Proceed =>
          return true, 0;
        case Fail(code, message) =>
          var failed := task.(status := Failed, failureCode := code, errorMessage := message,
                              completedAt := Some(ctx.gateNow));
          var finished := repo.FinishClaimedTask(failed);
          ReleaseRedisLease(task.id, worker, ctx.endMs, ctx.stillUp);
          return false, 0;
        case Defer(backoff, code, message) =>
          var deferred := repo.DeferClaimedTaskForModelHealth(task.id, task.userId, worker, code, message);
          ReleaseRedisLease(task.id, worker, ctx.endMs, ctx.stillUp);
          if !deferred {
            return false, 0;
          }
          Enqueue(task.id, ctx.stillUp);
          return false, backoff;
      }
    }

    /** From the claim to the end of the task.  If the claim still owns its row the row is settled:
        it waits again with one more retry, or is final.  If it does not, the table is untouched. */
    method ProcessClaimedTask(task: ImageGeneration, worker: string, ctx: Surroundings)
      returns (ghost events: seq<Protocol.Event>)
      requires repo.Valid() && 0 < task.id <= INT64_MAX && task.worker == worker && task.cancelledAt.None?
      requires Gen.StorageWorks(ctx.inputs)
      modifies repo`rows, redis
      ensures repo.Valid() && SimulatesFrom(task, events, old(repo.rows), repo.rows, worker)
      ensures OwnsRow(old(repo.rows), task, worker) ==>
                && repo.rows.Keys == old(repo.rows).Keys
                && (forall id :: id in repo.rows && id != task.id ==> repo.rows[id] == old(repo.rows)[id])
                && var r, r' := old(repo.rows)[task.id], repo.rows[task.id];
                   if !Gate.DecideForGenerate(ctx.health, task.retryCount).Proceed? then r' == RefusedRow(r, task, ctx)
                   else r'.status in {Success, Failed, Cancelled, Timeout} && r'.retryCount == r.retryCount
                        && r'.userId == r.userId
                        && r'.worker == "" && r'.leaseExpiresAt == None && r'.completedAt == Some(ctx.inputs.now)
                        && (r'.status.Success? ==> r'.storageKey != "")
      ensures !OwnsRow(old(repo.rows), task, worker) ==> repo.rows == old(repo.rows)
      ensures redis.leases == if ctx.stillUp && old(redis.Holder(task.id, ctx.endMs)) == Some(worker)
                              then old(redis.leases) - {task.id} else old(redis.leases)
    {
      ghost var before := repo.rows;
      var proceed, pauseSeconds := ApplyModelHealthGate(task, worker, ctx);
      if !proceed {
        events := [Protocol.PassGate(worker, ctx.health, ctx.gateNow)];
        GateAloneSimulates(task, before, worker, ctx.health, ctx.gateNow);
        return;
      }
      var result := Gen.Generate(task, ctx.inputs);
      var finished := repo.FinishClaimedTask(result);
      ReleaseRedisLease(task.id, worker, ctx.endMs, ctx.stillUp);
      events := FullPass(worker, ctx.health, ctx.gateNow, result);
      FullPassSimulates(task, before, worker, ctx.health, ctx.gateNow, result);
    }

    /** With an id from the queue: take its lease, claim it, work on it.  Nothing is assumed about what
        the queue and the leases hold.  No lease is taken away from anyone else, and Redis permitting
        none is kept. */
    method TurnOnTask(id: int, worker: string, nowMs: int, ctx: Surroundings)
      returns (ghost events: seq<Protocol.Event>)
      requires repo.Valid() && repo.nextId <= INT64_MAX && worker != "" && Gen.StorageWorks(ctx.inputs)
      requires nowMs <= ctx.endMs
      modifies repo`rows, redis
      ensures repo.Valid() && Simulates(events, old(repo.rows), repo.rows, worker)
      ensures if old(redis.Holder(id, nowMs)) == None
                 && id in old(repo.rows) && old(repo.rows)[id].status in {Queued, Pending}
              then WorkedOff(old(repo.rows), repo.rows, id)
              else repo.rows == old(repo.rows)
      ensures forall other, w :: w != worker && old(redis.Holder(other, nowMs)) == Some(w)
                                 ==> other in redis.leases && redis.leases[other] == old(redis.leases)[other]
      ensures ctx.stillUp ==>
                forall other :: redis.Holder(other, ctx.endMs) == Some(worker)
                                ==> old(redis.Holder(other, ctx.endMs)) == Some(worker)
    {
      ghost var before := repo.rows;
      events := [];
      NothingSimulates(before, worker);
      var acquired := redis.AcquireLease(id, worker, leaseSeconds, nowMs);
      if !acquired {
        return;
      }
      var task := repo.ClaimTaskById(id, worker, nowMs, leaseSeconds);
      if task.None? {
        ReleaseRedisLease(id, worker, ctx.endMs, ctx.stillUp);
      } else {
        ghost var claimed := repo.rows;
        events := ProcessClaimedTask(task.value, worker, ctx);
        events := ClaimByIdSimulates(worker, nowMs, leaseSeconds, before, claimed, task.value, events, repo.rows);
      }
    }

    /** With Redis up: the id that has waited longest in the queue. */
    method TurnOverQueue(worker: string, nowMs: int, ctx: Surroundings) returns (ghost events: seq<Protocol.Event>)
      requires repo.Valid() && repo.nextId <= INT64_MAX && worker != "" && Gen.StorageWorks(ctx.inputs)
      requires nowMs <= ctx.endMs
      modifies repo`rows, redis
      ensures repo.Valid() && Simulates(events, old(repo.rows), repo.rows, worker)
      ensures old(redis.queue) == [] ==> repo.rows == old(repo.rows)
      ensures old(redis.queue) != [] ==>
                match ReadInteger(old(redis.queue)[|old(redis.queue)| - 1], INT64_MAX)
                case None => repo.rows == old(repo.rows)
                case Some(id) =>
                  if old(redis.Holder(id, nowMs)) == None
                     && id in old(repo.rows) && old(repo.rows)[id].status in {Queued, Pending}
                  then WorkedOff(old(repo.rows), repo.rows, id)
                  else repo.rows == old(repo.rows)
      ensures forall id, other :: other != worker && old(redis.Holder(id, nowMs)) == Some(other)
                                  ==> id in redis.leases && redis.leases[id] == old(redis.leases)[id]
      ensures ctx.stillUp ==>
                forall id :: redis.Holder(id, ctx.endMs) == Some(worker)
                             ==> old(redis.Holder(id, ctx.endMs)) == Some(worker)
    {
      events := [];
      NothingSimulates(repo.rows, worker);
      var popped := redis.DequeueTask();
      if popped.Ok? && popped.value.Some? {
        events := TurnOnTask(popped.value.value, worker, nowMs, ctx);
      }
    }

    /** With Redis down: claim the oldest claimable row. */
    method TurnOverTable(worker: string, nowMs: int, ctx: Surroundings) returns (ghost events: seq<Protocol.Event>)
      requires repo.Valid() && repo.nextId <= INT64_MAX && worker != "" && Gen.StorageWorks(ctx.inputs)
      modifies repo`rows, redis
      ensures repo.Valid() && Simulates(events, old(repo.rows), repo.rows, worker)
    {
      ghost var before := repo.rows;
      events := [];
      NothingSimulates(before, worker);
      var task := repo.ClaimNextTask(worker, nowMs, leaseSeconds);
      if task.Some? {
        ghost var claimed := repo.rows;
        events := ProcessClaimedTask(task.value, worker, ctx);
        events := ClaimOldestSimulates(worker, nowMs, leaseSeconds, before, claimed, task.value, events, repo.rows);
      }
    }

    /** One turn of the worker's loop is a run of the protocol's events for this worker. */
    method WorkerTurn(worker: string, nowMs: int, redisUp: bool, ctx: Surroundings)
      returns (ghost events: seq<Protocol.Event>)
      requires repo.Valid() && repo.nextId <= INT64_MAX && worker != "" && Gen.StorageWorks(ctx.inputs)
      requires nowMs <= ctx.endMs
      modifies repo`rows, redis
      ensures repo.Valid() && Simulates(events, old(repo.rows), repo.rows, worker)
    {
      if redisUp {
        events := TurnOverQueue(worker, nowMs, ctx);
      } else {
        events := TurnOverTable(worker, nowMs, ctx);
      }
    }

    method RecoverOrphanedTasks(redisUp: bool)
      requires repo.Valid() && repo.nextId <= INT64_MAX
      modifies redis`queue
      ensures !redisUp ==> redis.queue == old(redis.queue)
      ensures redisUp ==>
                exists ids ::
                  && (forall id :: id in ids <==> id in repo.rows && repo.rows[id].status in {Queued, Pending})
                  && Repo.OldestFirst(repo.rows, ids)
                  && Served(redis.queue) == Known(ids)
    {
      if !redisUp {
        return;
      }
      var ids := repo.FindQueuedTaskIds();
      redis.RebuildTaskQueue(ids);
    }

    /** After an undisturbed round no running row's lease ended before the round's update clock, and,
        with Redis up, popping the queue serves every waiting task exactly once, oldest first. */
    method LeaseExpiryRound(selectMs: int, updateMs: int, redisUp: bool)
      requires repo.Valid() && repo.nextId <= INT64_MAX && selectMs <= updateMs
      modifies repo`rows, redis`queue
      ensures repo.Valid()
      ensures forall id :: id in repo.rows ==> !LeaseExpired(repo.rows[id], Repo.DbSeconds(updateMs))
      ensures repo.rows.Keys == old(repo.rows).Keys
      ensures forall id :: id in old(repo.rows) && !LeaseExpired(old(repo.rows)[id], Repo.DbSeconds(updateMs))
                           ==> id in repo.rows && repo.rows[id] == old(repo.rows)[id]
      ensures redisUp ==>
                exists ids ::
                  && (forall id :: id in ids <==> id in repo.rows && repo.rows[id].status in {Queued, Pending})
                  && Repo.OldestFirst(repo.rows, ids)
                  && Served(redis.queue) == Known(ids)
      ensures var now := Repo.DbSeconds(updateMs);
              forall s: Protocol.System :: Shows(s, old(repo.rows)) ==>
                Shows(Protocol.Run(s, [Protocol.ScanRequeues(now), Protocol.ScanTimesOut(now)]), repo.rows)
    {
      ghost var before := repo.rows;
      var expired := repo.ExpireLeasesReturningExpired(selectMs, updateMs);
      ScanIsRun(before, Repo.DbSeconds(updateMs));
      for i := 0 to |expired|
        modifies redis`queue
      {
        if expired[i].requeue {
          Enqueue(expired[i].id, redisUp);
        }
      }
      RecoverOrphanedTasks(redisUp);
    }
  }

  lemma ScanIsRun(before: Rows, now: int)
    ensures forall s: Protocol.System :: Shows(s, before) ==>
              Shows(Protocol.Run(s, [Protocol.ScanRequeues(now), Protocol.ScanTimesOut(now)]),
                    ExecuteAll(ExecuteAll(before, RequeueExpired(now)), TimeOutExpired(now)))
  {
    forall s: Protocol.System | Shows(s, before)
      ensures Shows(Protocol.Run(s, [Protocol.ScanRequeues(now), Protocol.ScanTimesOut(now)]),
                    ExecuteAll(ExecuteAll(before, RequeueExpired(now)), TimeOutExpired(now)))
    {
      var requeued := Protocol.Apply(s, Protocol.ScanRequeues(now));
      RunTwo(s, Protocol.ScanRequeues(now), Protocol.ScanTimesOut(now));
      Safety.TouchAllIsExecuteAll(s.cells, RequeueExpired(now));
      Safety.TouchAllIsExecuteAll(requeued.cells, TimeOutExpired(now));
    }
  }
}
