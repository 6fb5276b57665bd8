/** The task engine as a protocol: workers, their lease keepers, the lease scanner and users, all
    interleaving single statements over one table.

    A worker is serial: it polls, claims, reads its claim back, passes the health gate, generates
    and finishes, and its keeper is joined before it polls again.  Worker ids are distinct.  Which
    id a worker tries, and when, is left open, so the queue and the Redis leases may hold anything.
    Clock readings are arguments and need not agree.  A statement takes effect when it is sent or not
    at all, also when its call fails.  An event that is not enabled changes nothing. */
module TaskProtocol {
  import opened Wrappers
  import opened TaskStatus
  import opened ImageRows
  import opened TaskHistory
  import Gate = ModelHealthGate
  import Gen = GenerationClient

  /** What a worker remembers about its claim: the row it read back and the number of the claim
      that row then stood at. */
  datatype Claim = Claim(task: ImageGeneration, epoch: nat)

  datatype WorkerState =
    | Idle
    | ClaimedById(id: int)              // claimTaskById has updated a row, not yet read it back
    | ClaimedOldest(expiresAt: int)     // claimNextTask has updated a row, not yet read it back
    | Holding(claim: Claim)             // about to consult the health gate
    | Running(claim: Claim)             // generating, keeper active
    | Closing(claim: Claim)             // finished, keeper not yet joined

  datatype System = System(cells: map<int, Cell>, nextId: int, workers: map<string, WorkerState>)

  datatype Event =
    | Create(request: ImageGeneration)
    | TryClaimById(w: string, id: int, now: int, leaseSeconds: int)
    | TryClaimOldest(w: string, id: int, now: int, leaseSeconds: int)
    | ReadBack(w: string, id: int)
    | PassGate(w: string, health: Gate.Health, now: int)
    | KeeperRenews(w: string, now: int, leaseSeconds: int)
    | FinishTask(w: string, result: ImageGeneration)
    | JoinKeeper(w: string)
    | LoseClaim(w: string)              // an exception, a failed call or a restart
    | UserCancels(id: int, userId: int, now: int)
    | UserRetries(id: int, userId: int)
    | UserDeletes(id: int, userId: int)
    | ScanRequeues(now: int)
    | ScanTimesOut(now: int)

  function Table(cells: map<int, Cell>): Rows {
    map id | id in cells :: cells[id].row
  }

  function StateOf(s: System, w: string): WorkerState {
    if w in s.workers then s.workers[w] else Idle
  }

  predicate HasClaim(ws: WorkerState) {
    ws.Holding? || ws.Running? || ws.Closing?
  }

  function Touch(cells: map<int, Cell>, id: int, st: Statement): map<int, Cell> {
    if id in cells then cells[id := Advance(cells[id], st)] else cells
  }

  function TouchAll(cells: map<int, Cell>, st: Statement): map<int, Cell> {
    map id | id in cells :: Advance(cells[id], st)
  }

  /** The SELECT that follows a claim; which of several matching rows it yields is not fixed. */
  predicate ReadsBack(s: System, w: string, id: int) {
    && id in s.cells
    && s.cells[id].row.status.Generating? && s.cells[id].row.worker == w
    && (StateOf(s, w).ClaimedById? ==> id == StateOf(s, w).id)
    && (StateOf(s, w).ClaimedOldest? ==>
          s.cells[id].row.leaseExpiresAt == Some(StateOf(s, w).expiresAt))
  }

  function SetWorker(s: System, w: string, ws: WorkerState): System {
    s.(workers := s.workers[w := ws])
  }

  function GateFailure(task: ImageGeneration, d: Gate.Decision, now: int): ImageGeneration
    requires d.Fail?
  {
    task.(status := Failed, failureCode := d.failureCode, errorMessage := d.message,
          completedAt := Some(now))
  }

  /** The statement the gate sends, if it does not let the task through. */
  function GateStatement(task: ImageGeneration, w: string, d: Gate.Decision, now: int): Option<Statement> {
    match d
    case Proceed => None
    case Fail(_, _) => Some(FinishClaimed(GateFailure(task, d, now)))
    case Defer(_, code, message) => Some(DeferClaimed(task.userId, w, code, message))
  }

  ghost function Apply(s: System, e: Event): System {
    match e
    case Create(request) =>
      s.(cells := s.cells[s.nextId := Fresh(Created(request, s.nextId))], nextId := s.nextId + 1)
    case TryClaimById(w, id, now, leaseSeconds) =>
      if StateOf(s, w).Idle? && id in s.cells && Waiting(s.cells[id].row) then
        SetWorker(s.(cells := Touch(s.cells, id, ClaimById(w, now, now + LeaseLength(leaseSeconds)))),
                  w, ClaimedById(id))
      else s
    case TryClaimOldest(w, id, now, leaseSeconds) =>
      if StateOf(s, w).Idle? && IsOldestClaimable(Table(s.cells), now, id) then
        var expiresAt := now + LeaseLength(leaseSeconds);
        SetWorker(s.(cells := Touch(s.cells, id, ClaimOldest(w, now, expiresAt))),
                  w, ClaimedOldest(expiresAt))
      else s
    case ReadBack(w, id) =>
      if StateOf(s, w).ClaimedById? || StateOf(s, w).ClaimedOldest? then
        SetWorker(s, w, if ReadsBack(s, w, id)
                        then Holding(Claim(s.cells[id].row, Epoch(s.cells[id].hist))) else Idle)
      else s
    case PassGate(w, health, now) =>
      if !StateOf(s, w).Holding? then s
      else
        var claim := StateOf(s, w).claim;
        var task := claim.task;
        var st := GateStatement(task, w, Gate.DecideForGenerate(health, task.retryCount), now);
        if st.None? then SetWorker(s, w, Running(claim))
        else SetWorker(s.(cells := Touch(s.cells, task.id, st.value)), w, Idle)
    case KeeperRenews(w, now, leaseSeconds) =>
      if StateOf(s, w).Running? || StateOf(s, w).Closing? then
        var task := StateOf(s, w).claim.task;
        s.(cells := Touch(s.cells, task.id, RenewLease(task.userId, w, now + LeaseLength(leaseSeconds))))
      else s
    case FinishTask(w, result) =>
      if StateOf(s, w).Running? && Gen.FinalFor(StateOf(s, w).claim.task, result) then
        SetWorker(s.(cells := Touch(s.cells, result.id, FinishClaimed(result))),
                  w, Closing(StateOf(s, w).claim))
      else s
    case JoinKeeper(w) => if StateOf(s, w).Closing? then SetWorker(s, w, Idle) else s
    case LoseClaim(w) => SetWorker(s, w, Idle)
    case UserCancels(id, userId, now) => s.(cells := Touch(s.cells, id, CancelTask(userId, now)))
    case UserRetries(id, userId) => s.(cells := Touch(s.cells, id, RetryTask(userId)))
    case UserDeletes(id, userId) =>
      if Deletable(Table(s.cells), id, userId) then s.(cells := s.cells - {id}) else s
    case ScanRequeues(now) => s.(cells := TouchAll(s.cells, RequeueExpired(now)))
    case ScanTimesOut(now) => s.(cells := TouchAll(s.cells, TimeOutExpired(now)))
  }

  const Start := System(map[], 1, map[])

  ghost function Run(s: System, events: seq<Event>): System
    decreases |events|
  {
    if events == [] then s else Run(Apply(s, events[0]), events[1..])
  }

  /** The assumptions on the outside: worker ids are not empty, and a create request carries no
      lease, worker or cancellation time of its own. */
  predicate Admissible(e: Event) {
    match e
    case Create(g) => g.worker == "" && g.leaseExpiresAt.None? && g.cancelledAt.None?
    case TryClaimById(w, _, _, _) => w != ""
    case TryClaimOldest(w, _, _, _) => w != ""
    case _ => true
  }

  predicate AllAdmissible(events: seq<Event>) {
    forall i :: 0 <= i < |events| ==> Admissible(events[i])
  }

  // ---- The invariant ----

  /** A remembered claim against the row it is about.  The claim's number bears this worker's name
      in the row's log; and as long as the row is still generated under that name, the claim is the
      newest one and the row is the one it remembers, but for the lease. */
  predicate ClaimFits(w: string, claim: Claim, c: Cell) {
    && 1 <= claim.epoch <= Epoch(c.hist)
    && c.hist.log[2 * claim.epoch - 2] == ClaimedBy(w)
    && c.row.userId == claim.task.userId
    && (c.row.status.Generating? && c.row.worker == w ==>
          claim.epoch == Epoch(c.hist) && c.row == claim.task.(leaseExpiresAt := c.row.leaseExpiresAt))
  }

  predicate ClaimOk(s: System, w: string, claim: Claim) {
    && claim.task.worker == w
    && claim.task.cancelledAt.None?
    && claim.task.id < s.nextId
    && (claim.task.id in s.cells ==> ClaimFits(w, claim, s.cells[claim.task.id]))
  }

  predicate CellsOk(cells: map<int, Cell>, nextId: int) {
    forall id :: id in cells ==> id < nextId && cells[id].row.id == id && CellOk(cells[id])
  }

  predicate Inv(s: System) {
    && CellsOk(s.cells, s.nextId)
    && forall w :: w in s.workers && HasClaim(s.workers[w]) ==> ClaimOk(s, w, s.workers[w].claim)
  }

  /** The heart of the fence: another party's statement never leaves the row looking as if an older
      claim of this worker still owned it. */
  lemma ClaimSurvives(w: string, claim: Claim, c: Cell, st: Statement)
    requires CellOk(c) && WellBound(st) && ClaimFits(w, claim, c)
    requires st.ClaimById? || st.ClaimOldest? ==> st.worker != w
    ensures ClaimFits(w, claim, Advance(c, st))
  {
    AdvanceExtendsLog(c, st);
    StatementFrame(c.row, st);
  }

  /** Executing a statement on some of the rows, on behalf of `actor` if it is a claim. */
  lemma StatementKeepsInv(s: System, cells: map<int, Cell>, st: Statement, actor: string)
    requires Inv(s) && WellBound(st)
    requires cells.Keys == s.cells.Keys
    requires forall id :: id in cells ==> cells[id] == s.cells[id] || cells[id] == Advance(s.cells[id], st)
    requires st.ClaimById? || st.ClaimOldest? ==> st.worker == actor && !HasClaim(StateOf(s, actor))
    requires st.DeferClaimed? ==>
               forall id :: id in cells && cells[id] != s.cells[id] ==> s.cells[id].row.retryCount < 9
    ensures Inv(s.(cells := cells))
  {
    forall id | id in cells
      ensures id < s.nextId && cells[id].row.id == id && CellOk(cells[id])
    {
      if cells[id] != s.cells[id] {
        AdvanceKeepsOk(s.cells[id], st);
        StatementFrame(s.cells[id].row, st);
      }
    }
    forall w | w in s.workers && HasClaim(s.workers[w])
      ensures ClaimOk(s.(cells := cells), w, s.workers[w].claim)
    {
      var claim := s.workers[w].claim;
      assert ClaimOk(s, w, claim);
      if claim.task.id in cells && cells[claim.task.id] != s.cells[claim.task.id] {
        ClaimSurvives(w, claim, s.cells[claim.task.id], st);
      }
    }
  }

  /** And on a single row. */
  lemma TouchKeepsInv(s: System, id: int, st: Statement, actor: string)
    requires Inv(s) && WellBound(st)
    requires st.ClaimById? || st.ClaimOldest? ==> st.worker == actor && !HasClaim(StateOf(s, actor))
    requires st.DeferClaimed? && id in s.cells && Matches(s.cells[id].row, st) ==> s.cells[id].row.retryCount < 9
    ensures Inv(s.(cells := Touch(s.cells, id, st)))
  {
    StatementKeepsInv(s, Touch(s.cells, id, st), st, actor);
  }

  /** A claim that takes effect, and its worker's next state. */
  lemma ClaimKeepsInv(s: System, w: string, id: int, st: Statement, ws: WorkerState)
    requires Inv(s) && w != "" && (st.ClaimById? || st.ClaimOldest?) && st.worker == w
    requires !HasClaim(StateOf(s, w)) && !HasClaim(ws)
    ensures Inv(SetWorker(s.(cells := Touch(s.cells, id, st)), w, ws))
  {
    TouchKeepsInv(s, id, st, w);
    DroppingClaimKeepsInv(s.(cells := Touch(s.cells, id, st)), w, ws);
  }

  lemma DroppingClaimKeepsInv(s: System, w: string, ws: WorkerState)
    requires Inv(s)
    requires HasClaim(ws) ==> HasClaim(StateOf(s, w)) && ws.claim == StateOf(s, w).claim
    ensures Inv(SetWorker(s, w, ws))
  {
    var s' := SetWorker(s, w, ws);
    forall v | v in s'.workers && HasClaim(s'.workers[v])
      ensures ClaimOk(s', v, s'.workers[v].claim)
    {
      assert v in s.workers && HasClaim(s.workers[v]) && s.workers[v].claim == s'.workers[v].claim;
      assert ClaimOk(s, v, s.workers[v].claim);
    }
  }

  lemma ReadBackKeepsInv(s: System, w: string, id: int)
    requires Inv(s) && ReadsBack(s, w, id)
    ensures Inv(SetWorker(s, w, Holding(Claim(s.cells[id].row, Epoch(s.cells[id].hist)))))
  {
    var c := s.cells[id];
    var claim := Claim(c.row, Epoch(c.hist));
    assert CellOk(c);
    assert 2 * Epoch(c.hist) - 2 == |c.hist.log| - 1;
    assert ClaimFits(w, claim, c);
    var s' := SetWorker(s, w, Holding(claim));
    forall v | v in s'.workers && HasClaim(s'.workers[v])
      ensures ClaimOk(s', v, s'.workers[v].claim)
    {
      if v != w {
        assert ClaimOk(s, v, s.workers[v].claim);
      }
    }
  }

  lemma CreateKeepsInv(s: System, request: ImageGeneration)
    requires Inv(s) && Admissible(Create(request))
    ensures Inv(Apply(s, Create(request)))
  {
    var s' := Apply(s, Create(request));
    CreatedRowConsistency(request, s.nextId);
    FreshIsOk(Created(request, s.nextId));
    forall w | w in s'.workers && HasClaim(s'.workers[w])
      ensures ClaimOk(s', w, s'.workers[w].claim)
    {
      assert ClaimOk(s, w, s.workers[w].claim);
    }
  }

  lemma DeleteKeepsInv(s: System, id: int)
    requires Inv(s)
    ensures Inv(s.(cells := s.cells - {id}))
  {
    forall w | w in s.workers && HasClaim(s.workers[w])
      ensures ClaimOk(s.(cells := s.cells - {id}), w, s.workers[w].claim)
    {
      assert ClaimOk(s, w, s.workers[w].claim);
    }
  }

  lemma GateKeepsInv(s: System, w: string, health: Gate.Health, now: int)
    requires Inv(s)
    ensures Inv(Apply(s, PassGate(w, health, now)))
  {
    if StateOf(s, w).Holding? {
      var claim := StateOf(s, w).claim;
      assert ClaimOk(s, w, claim);
      var d := Gate.DecideForGenerate(health, claim.task.retryCount);
      var st := GateStatement(claim.task, w, d, now);
      if st.None? {
        DroppingClaimKeepsInv(s, w, Running(claim));
      } else {
        TouchKeepsInv(s, claim.task.id, st.value, w);
        DroppingClaimKeepsInv(s.(cells := Touch(s.cells, claim.task.id, st.value)), w, Idle);
      }
    }
  }

  lemma ClaimByIdKeepsInv(s: System, w: string, id: int, now: int, leaseSeconds: int)
    requires Inv(s) && w != ""
    ensures Inv(Apply(s, TryClaimById(w, id, now, leaseSeconds)))
  {
    if StateOf(s, w).Idle? {
      ClaimKeepsInv(s, w, id, ClaimById(w, now, now + LeaseLength(leaseSeconds)), ClaimedById(id));
    }
  }

  lemma ClaimOldestKeepsInv(s: System, w: string, id: int, now: int, leaseSeconds: int)
    requires Inv(s) && w != ""
    ensures Inv(Apply(s, TryClaimOldest(w, id, now, leaseSeconds)))
  {
    if StateOf(s, w).Idle? {
      var expiresAt := now + LeaseLength(leaseSeconds);
      ClaimKeepsInv(s, w, id, ClaimOldest(w, now, expiresAt), ClaimedOldest(expiresAt));
    }
  }

  lemma RenewKeepsInv(s: System, w: string, now: int, leaseSeconds: int)
    requires Inv(s)
    ensures Inv(Apply(s, KeeperRenews(w, now, leaseSeconds)))
  {
    if StateOf(s, w).Running? || StateOf(s, w).Closing? {
      var task := StateOf(s, w).claim.task;
      TouchKeepsInv(s, task.id, RenewLease(task.userId, w, now + LeaseLength(leaseSeconds)), w);
    }
  }

  lemma FinishKeepsInv(s: System, w: string, result: ImageGeneration)
    requires Inv(s)
    ensures Inv(Apply(s, FinishTask(w, result)))
  {
    if StateOf(s, w).Running? && Gen.FinalFor(StateOf(s, w).claim.task, result) {
      var claim := StateOf(s, w).claim;
      assert ClaimOk(s, w, claim);
      TouchKeepsInv(s, result.id, FinishClaimed(result), w);
      DroppingClaimKeepsInv(s.(cells := Touch(s.cells, result.id, FinishClaimed(result))), w, Closing(claim));
    }
  }

  lemma UserKeepsInv(s: System, id: int, st: Statement)
    requires Inv(s) && (st.CancelTask? || st.RetryTask?)
    ensures Inv(s.(cells := Touch(s.cells, id, st)))
  {
    TouchKeepsInv(s, id, st, "");
  }

  lemma ScanKeepsInv(s: System, st: Statement)
    requires Inv(s) && (st.RequeueExpired? || st.TimeOutExpired?)
    ensures Inv(s.(cells := TouchAll(s.cells, st)))
  {
    StatementKeepsInv(s, TouchAll(s.cells, st), st, "");
  }

  lemma ApplyKeepsInv(s: System, e: Event)
    requires Inv(s) && Admissible(e)
    ensures Inv(Apply(s, e))
  {
    match e
    case Create(request) => CreateKeepsInv(s, request);
    case TryClaimById(w, id, now, leaseSeconds) => ClaimByIdKeepsInv(s, w, id, now, leaseSeconds);
    case TryClaimOldest(w, id, now, leaseSeconds) => ClaimOldestKeepsInv(s, w, id, now, leaseSeconds);
    case ReadBack(w, id) =>
      if ReadsBack(s, w, id) { ReadBackKeepsInv(s, w, id); } else { DroppingClaimKeepsInv(s, w, Idle); }
    case PassGate(w, health, now) => GateKeepsInv(s, w, health, now);
    case KeeperRenews(w, now, leaseSeconds) => RenewKeepsInv(s, w, now, leaseSeconds);
    case FinishTask(w, result) => FinishKeepsInv(s, w, result);
    case JoinKeeper(w) => DroppingClaimKeepsInv(s, w, Idle);
    case LoseClaim(w) => DroppingClaimKeepsInv(s, w, Idle);
    case UserCancels(id, userId, now) => UserKeepsInv(s, id, CancelTask(userId, now));
    case UserRetries(id, userId) => UserKeepsInv(s, id, RetryTask(userId));
    case UserDeletes(id, userId) => DeleteKeepsInv(s, id);
    case ScanRequeues(now) => ScanKeepsInv(s, RequeueExpired(now));
    case ScanTimesOut(now) => ScanKeepsInv(s, TimeOutExpired(now));
  }

  lemma {:induction false} RunKeepsInv(s: System, events: seq<Event>)
    requires Inv(s) && AllAdmissible(events)
    ensures Inv(Run(s, events))
    decreases |events|
  {
    if events != [] {
      ApplyKeepsInv(s, events[0]);
      RunKeepsInv(Apply(s, events[0]), events[1..]);
    }
  }
}
