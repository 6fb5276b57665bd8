/** What holds in every run of the task engine. */
module TaskSafety {
  import opened Wrappers
  import opened TaskStatus
  import opened ImageRows
  import opened TaskHistory
  import opened TaskProtocol
  import Gen = GenerationClient

  predicate SentByWorker(e: Event, w: string) {
    (e.PassGate? || e.KeeperRenews? || e.FinishTask?) && e.w == w
  }

  ghost function Reached(events: seq<Event>): System {
    Run(Start, events)
  }

  lemma ReachedInv(events: seq<Event>)
    requires AllAdmissible(events)
    ensures Inv(Reached(events))
  {
    RunKeepsInv(Start, events);
  }

  // ---- Fencing ----

  /** The WHERE clause of the worker's statements lets a claim through exactly when it is the newest
      claim on its row and nobody has ended it. */
  lemma FenceIsExact(events: seq<Event>, w: string)
    requires AllAdmissible(events) && HasClaim(StateOf(Reached(events), w))
    ensures var s := Reached(events);
            var claim := StateOf(s, w).claim;
            claim.task.id in s.cells ==>
              var c := s.cells[claim.task.id];
              OwnedBy(c.row, claim.task.userId, w) <==>
                claim.epoch == Epoch(c.hist) && |c.hist.log| % 2 == 1
  {
    ReachedInv(events);
    var s := Reached(events);
    var claim := StateOf(s, w).claim;
    assert ClaimOk(s, w, claim);
    if claim.task.id in s.cells {
      var c := s.cells[claim.task.id];
      assert CellOk(c) && ClaimFits(w, claim, c);
      if claim.epoch == Epoch(c.hist) && |c.hist.log| % 2 == 1 {
        assert c.hist.log[|c.hist.log| - 1] == ClaimedBy(w);
      }
    }
  }

  /** A worker's finish, deferral or renewal touches no row but the one it claimed, and that one only
      while its claim is the newest and still open. */
  lemma Fencing(events: seq<Event>, e: Event, w: string, id: int)
    requires AllAdmissible(events) && SentByWorker(e, w)
    ensures var s, s' := Reached(events), Apply(Reached(events), e);
            && s'.cells.Keys == s.cells.Keys
            && (id in s.cells && s'.cells[id] != s.cells[id] ==>
                  && HasClaim(StateOf(s, w)) && StateOf(s, w).claim.task.id == id
                  && StateOf(s, w).claim.epoch == Epoch(s.cells[id].hist)
                  && |s.cells[id].hist.log| % 2 == 1)
  {
    var s, s' := Reached(events), Apply(Reached(events), e);
    ReachedInv(events);
    if id in s.cells && s'.cells[id] != s.cells[id] {
      assert HasClaim(StateOf(s, w));
      FenceIsExact(events, w);
      assert ClaimOk(s, w, StateOf(s, w).claim);
    }
  }

  /** Once another claim has been made on the row, or the claim has been ended by anyone, nothing the
      worker or its keeper still sends changes any row. */
  lemma SupersededWorkerIsPowerless(events: seq<Event>, e: Event, w: string)
    requires AllAdmissible(events) && SentByWorker(e, w)
    requires var s := Reached(events);
             HasClaim(StateOf(s, w)) ==>
               var claim := StateOf(s, w).claim;
               claim.task.id in s.cells ==>
                 || claim.epoch < Epoch(s.cells[claim.task.id].hist)
                 || |s.cells[claim.task.id].hist.log| % 2 == 0
    ensures Apply(Reached(events), e).cells == Reached(events).cells
  {
    var s, s' := Reached(events), Apply(Reached(events), e);
    forall id | id in s.cells
      ensures s'.cells.Keys == s.cells.Keys && s'.cells[id] == s.cells[id]
    {
      Fencing(events, e, w, id);
    }
    Fencing(events, e, w, 0);
  }

  // ---- Histories are permanent ----

  predicate Extends(c: Cell, c': Cell) {
    && c.hist.log <= c'.hist.log && c.hist.initial == c'.hist.initial
    && c.row.maxRetries == c'.row.maxRetries && c.row.userId == c'.row.userId
    && (c.row.status.Success? ==> c'.row == c.row)
  }

  lemma AdvanceExtends(c: Cell)
    ensures Extends(c, c) && forall st :: Extends(c, Advance(c, st))
  {
    forall st
      ensures Extends(c, Advance(c, st))
    {
      AdvanceExtendsLog(c, st);
      StatementFrame(c.row, st);
    }
  }

  lemma ApplyExtends(s: System, e: Event, id: int)
    ensures s.nextId <= Apply(s, e).nextId
    ensures id < s.nextId && id !in s.cells ==> id !in Apply(s, e).cells
    ensures id < s.nextId && id in s.cells && id in Apply(s, e).cells ==> Extends(s.cells[id], Apply(s, e).cells[id])
  {
    if id in s.cells {
      AdvanceExtends(s.cells[id]);
    }
  }

  lemma {:induction false} RunExtends(s: System, events: seq<Event>, id: int)
    requires id < s.nextId
    ensures id < Run(s, events).nextId
    ensures id !in s.cells ==> id !in Run(s, events).cells
    ensures id in s.cells && id in Run(s, events).cells ==> Extends(s.cells[id], Run(s, events).cells[id])
    decreases |events|
  {
    if events != [] {
      ApplyExtends(s, events[0], id);
      if id in s.cells {
        AdvanceExtends(s.cells[id]);
      }
      RunExtends(Apply(s, events[0]), events[1..], id);
    }
  }

  /** How claim number k on a row ended is settled once: in every later state in which the row still
      exists the same entry stands, a claim ended by a worker was ended by the worker that made it,
      and no later claim was made before that end. */
  lemma EachClaimEndsOnce(events: seq<Event>, more: seq<Event>, id: int, k: nat)
    requires AllAdmissible(events)
    requires var s := Reached(events);
             id in s.cells && 1 <= k && 2 * k <= |s.cells[id].hist.log|
    ensures var log := Reached(events).cells[id].hist.log;
            log[2 * k - 2].ClaimedBy? && log[2 * k - 1].Ended?
            && (log[2 * k - 1].cause.Worker? ==> log[2 * k - 1].cause.name == log[2 * k - 2].worker)
    ensures id in Run(Reached(events), more).cells ==>
              Reached(events).cells[id].hist.log <= Run(Reached(events), more).cells[id].hist.log
  {
    ReachedInv(events);
    var s := Reached(events);
    assert CellOk(s.cells[id]) && id < s.nextId;
    assert EntryFits(s.cells[id].hist.log, 2 * k - 2);
    assert EntryFits(s.cells[id].hist.log, 2 * k - 1);
    RunExtends(s, more, id);
  }

  /** A success is never altered by anything but deletion, and a deleted id never returns. */
  lemma SuccessIsFinal(events: seq<Event>, more: seq<Event>, id: int)
    requires AllAdmissible(events) && id in Reached(events).cells
    requires Reached(events).cells[id].row.status.Success?
    ensures var later := Run(Reached(events), more);
            id in later.cells ==> later.cells[id].row == Reached(events).cells[id].row
  {
    ReachedInv(events);
    RunExtends(Reached(events), more, id);
  }

  // ---- What each event does ----

  /** The table after each event that is not a worker's: the user's and the scanner's statements, with
      their guards, and the new row of a create. */
  lemma OutsideEventsAreStatements(s: System, id: int, request: ImageGeneration, userId: int, now: int)
    ensures Table(Apply(s, Create(request)).cells) == Table(s.cells)[s.nextId := Created(request, s.nextId)]
    ensures Table(Apply(s, UserCancels(id, userId, now)).cells)
            == ExecuteOn(Table(s.cells), id, CancelTask(userId, now))
    ensures Table(Apply(s, UserRetries(id, userId)).cells) == ExecuteOn(Table(s.cells), id, RetryTask(userId))
    ensures Table(Apply(s, UserDeletes(id, userId)).cells)
            == if id in s.cells && s.cells[id].row.userId == userId
                  && s.cells[id].row.status in {Success, Failed, Cancelled, Timeout}
               then Table(s.cells) - {id} else Table(s.cells)
    ensures Table(Apply(s, ScanRequeues(now)).cells) == ExecuteAll(Table(s.cells), RequeueExpired(now))
    ensures Table(Apply(s, ScanTimesOut(now)).cells) == ExecuteAll(Table(s.cells), TimeOutExpired(now))
  {
    TouchIsExecute(s.cells, id, CancelTask(userId, now));
    TouchIsExecute(s.cells, id, RetryTask(userId));
    TouchAllIsExecuteAll(s.cells, RequeueExpired(now));
    TouchAllIsExecuteAll(s.cells, TimeOutExpired(now));
  }

  /** A keeper renews the lease of the row its worker runs, until the keeper is joined. */
  lemma KeeperRenewalIsStatement(s: System, w: string, now: int, leaseSeconds: int)
    requires StateOf(s, w).Running? || StateOf(s, w).Closing?
    ensures var task := StateOf(s, w).claim.task;
            Table(Apply(s, KeeperRenews(w, now, leaseSeconds)).cells)
            == ExecuteOn(Table(s.cells), task.id,
                         RenewLease(task.userId, w, now + (if leaseSeconds <= 0 then 900 else leaseSeconds)))
  {
    var task := StateOf(s, w).claim.task;
    TouchIsExecute(s.cells, task.id, RenewLease(task.userId, w, now + LeaseLength(leaseSeconds)));
  }

  lemma TouchIsExecute(cells: map<int, Cell>, id: int, st: Statement)
    ensures Table(Touch(cells, id, st)) == ExecuteOn(Table(cells), id, st)
  {
  }

  lemma TouchAllIsExecuteAll(cells: map<int, Cell>, st: Statement)
    ensures Table(TouchAll(cells, st)) == ExecuteAll(Table(cells), st)
  {
    var left, right := Table(TouchAll(cells, st)), ExecuteAll(Table(cells), st);
    assert left.Keys == cells.Keys && right.Keys == cells.Keys;
    forall id | id in cells
      ensures left[id] == right[id]
    {
      assert Table(cells)[id] == cells[id].row;
    }
  }

  // ---- Accounts ----

  /** In every reachable table: worker and lease are set exactly while generating, the completion
      time exactly when final, and a generating row has a start time. */
  lemma EveryReachableRowIsConsistent(events: seq<Event>, id: int)
    requires AllAdmissible(events) && id in Reached(events).cells
    ensures var r := Reached(events).cells[id].row;
            && r.id == id
            && (r.worker != "" <==> r.status == Generating)
            && (r.leaseExpiresAt.Some? <==> r.status == Generating)
            && (r.completedAt.Some? <==> r.status in {Success, Failed, Cancelled, Timeout})
            && (r.status == Generating ==> r.startedAt.Some?)
            && (r.cancelledAt.Some? ==> r.status == Cancelled)
            && r.status != Unknown && r.imageBytes == ""
  {
    ReachedInv(events);
  }

  /** Retries never pass the larger of the initial count, the row's own limit and nine. */
  lemma RetriesAreBounded(events: seq<Event>, id: int)
    requires AllAdmissible(events) && id in Reached(events).cells
    ensures var c := Reached(events).cells[id];
            && c.hist.initial <= c.row.retryCount
            && (|| c.row.retryCount <= c.hist.initial
                || c.row.retryCount <= c.row.maxRetries
                || c.row.retryCount <= 9)
  {
    ReachedInv(events);
    assert CellOk(Reached(events).cells[id]);
  }

  /** While a worker still owns its row, what it remembers of it, the retry count it decides by
      included, is what the row holds; only the lease may have moved. */
  lemma RememberedRowIsCurrent(events: seq<Event>, w: string)
    requires AllAdmissible(events) && HasClaim(StateOf(Reached(events), w))
    ensures var s := Reached(events);
            var task := StateOf(s, w).claim.task;
            task.id in s.cells && OwnedBy(s.cells[task.id].row, task.userId, w) ==>
              s.cells[task.id].row == task.(leaseExpiresAt := s.cells[task.id].row.leaseExpiresAt)
  {
    ReachedInv(events);
    assert ClaimOk(Reached(events), w, StateOf(Reached(events), w).claim);
  }

  /** A finish that gets through stores the whole result: the row is then the result without worker
      and lease, except that the request id stays and picture bytes are never stored. */
  lemma FinishedRowIsTheResult(events: seq<Event>, w: string, result: ImageGeneration)
    requires AllAdmissible(events) && StateOf(Reached(events), w).Running?
    requires var s := Reached(events);
             var task := StateOf(s, w).claim.task;
             Gen.FinalFor(task, result) && task.id in s.cells && OwnedBy(s.cells[task.id].row, task.userId, w)
    ensures var s := Reached(events);
            var task := StateOf(s, w).claim.task;
            var s' := Apply(s, FinishTask(w, result));
            task.id in s'.cells &&
            s'.cells[task.id].row ==
              result.(worker := "", leaseExpiresAt := None, requestId := task.requestId, imageBytes := "")
  {
    ReachedInv(events);
    RememberedRowIsCurrent(events, w);
    EveryReachableRowIsConsistent(events, StateOf(Reached(events), w).claim.task.id);
    assert ClaimOk(Reached(events), w, StateOf(Reached(events), w).claim);
  }

  /** Every attempt is paid for: one for the creation and one for each retry is always either
      waiting, or was claimed from the queue, or was cancelled there. */
  lemma AttemptsAreConserved(events: seq<Event>, id: int)
    requires AllAdmissible(events) && id in Reached(events).cells
    ensures var c := Reached(events).cells[id];
            c.hist.queueClaims + c.hist.queueCancels + (if Waiting(c.row) then 1 else 0)
            == 1 + c.row.retryCount - c.hist.initial
  {
    ReachedInv(events);
    assert CellOk(Reached(events).cells[id]);
  }

  /** A task takes a bounded number of steps, whatever workers, scanner and user do; lease renewals
      and takeovers of expired leases are not counted. */
  lemma StepsAreBounded(events: seq<Event>, id: int)
    requires AllAdmissible(events) && id in Reached(events).cells
    ensures var c := Reached(events).cells[id];
            || c.hist.steps <= 2
            || c.hist.steps <= 3 * (c.row.maxRetries - c.hist.initial) + 2
            || c.hist.steps <= 3 * (9 - c.hist.initial) + 2
  {
    ReachedInv(events);
    assert CellOk(Reached(events).cells[id]);
  }
}
