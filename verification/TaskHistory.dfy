/** What happens to one row, statement by statement: a log of its claims and of how each ended,
    and the accounts of attempts and steps that the row's retry count must agree with. */
module TaskHistory {
  import opened TaskStatus
  import opened ImageRows

  datatype EndedBy = Worker(name: string) | User | Scanner | Takeover

  datatype Mark = ClaimedBy(worker: string) | Ended(cause: EndedBy)

  /** queueClaims counts the claims of a waiting row, queueCancels the cancellations of a waiting
      row, steps every statement but lease renewals and takeovers. */
  datatype History = History(
    initial: int,
    log: seq<Mark>,
    queueClaims: nat,
    queueCancels: nat,
    steps: nat)

  /** A row together with its history. */
  datatype Cell = Cell(row: ImageGeneration, hist: History)

  function Fresh(row: ImageGeneration): Cell {
    Cell(row, History(row.retryCount, [], 0, 0, 0))
  }

  function Record(h: History, r: ImageGeneration, st: Statement): History
    requires Matches(r, st)
  {
    match st
    case ClaimById(worker, _, _) =>
      h.(log := h.log + [ClaimedBy(worker)], queueClaims := h.queueClaims + 1, steps := h.steps + 1)
    case ClaimOldest(worker, _, _) =>
      if r.status.Generating? then h.(log := h.log + [Ended(Takeover), ClaimedBy(worker)])
      else h.(log := h.log + [ClaimedBy(worker)], queueClaims := h.queueClaims + 1, steps := h.steps + 1)
    case RenewLease(_, _, _) => h
    case FinishClaimed(g) => h.(log := h.log + [Ended(Worker(g.worker))], steps := h.steps + 1)
    case DeferClaimed(_, worker, _, _) => h.(log := h.log + [Ended(Worker(worker))], steps := h.steps + 1)
    case CancelTask(_, _) =>
      if r.status.Generating? then h.(log := h.log + [Ended(User)], steps := h.steps + 1)
      else h.(queueCancels := h.queueCancels + 1, steps := h.steps + 1)
    case RetryTask(_) => h.(steps := h.steps + 1)
    case RequeueExpired(_) => h.(log := h.log + [Ended(Scanner)], steps := h.steps + 1)
    case TimeOutExpired(_) => h.(log := h.log + [Ended(Scanner)], steps := h.steps + 1)
  }

  function Advance(c: Cell, st: Statement): Cell {
    if Matches(c.row, st) then Cell(Assign(c.row, st), Record(c.hist, c.row, st)) else c
  }

  /** The number of claims made so far; the newest claim bears this number. */
  function Epoch(h: History): nat {
    (|h.log| + 1) / 2
  }

  /** Claim number k, counted from one, is the entry at 2k - 2, and how it ended, if it has, is the
      entry right after it: no claim ends twice, and none starts before the one before has ended.
      A claim ended by a worker was ended by the worker that made it. */
  predicate Alternates(log: seq<Mark>) {
    forall i :: 0 <= i < |log| ==> EntryFits(log, i)
  }

  predicate EntryFits(log: seq<Mark>, i: nat)
    requires i < |log|
  {
    if i % 2 == 0 then log[i].ClaimedBy?
    else log[i].Ended? && (log[i].cause.Worker? ==> log[i - 1] == ClaimedBy(log[i].cause.name))
  }

  function Max(a: int, b: int): int { if a < b then b else a }

  /** Deferral ignores the row's own limit and stops at nine; the other two re-queueings respect it. */
  function RetryBound(initial: int, maxRetries: int): int {
    Max(initial, Max(maxRetries, 9))
  }

  function Phase(s: Status): nat {
    if s.Queued? || s.Pending? then 2 else if s.Generating? then 1 else 0
  }

  predicate Accounted(c: Cell) {
    var r, h := c.row, c.hist;
    var bound := RetryBound(h.initial, r.maxRetries);
    && Alternates(h.log)
    && (|h.log| % 2 == 1 <==> r.status.Generating?)
    && (r.status.Generating? ==> h.log[|h.log| - 1] == ClaimedBy(r.worker))
    && h.queueClaims + h.queueCancels + (if Waiting(r) then 1 else 0) == 1 + r.retryCount - h.initial
    && r.retryCount <= bound
    && h.steps + 3 * (bound - r.retryCount) + Phase(r.status) <= 3 * (bound - h.initial) + 2
  }

  predicate CellOk(c: Cell) {
    RowConsistent(c.row) && Accounted(c)
  }

  lemma FreshIsOk(row: ImageGeneration)
    requires RowConsistent(row) && Waiting(row)
    ensures CellOk(Fresh(row))
  {
  }

  lemma AppendMark(log: seq<Mark>, m: Mark)
    requires Alternates(log)
    requires |log| % 2 == 0 <==> m.ClaimedBy?
    requires m.Ended? && m.cause.Worker? ==> log[|log| - 1] == ClaimedBy(m.cause.name)
    ensures Alternates(log + [m])
  {
    forall i | 0 <= i < |log + [m]|
      ensures EntryFits(log + [m], i)
    {
      assert i < |log| ==> EntryFits(log, i);
    }
  }

  /** Every statement keeps the row's shape and its accounts, provided a deferral is only sent
      while the row has been retried fewer than nine times. */
  lemma AdvanceKeepsOk(c: Cell, st: Statement)
    requires CellOk(c) && WellBound(st)
    requires st.DeferClaimed? && Matches(c.row, st) ==> c.row.retryCount < 9
    ensures CellOk(Advance(c, st))
  {
    if Matches(c.row, st) {
      StatementKeepsRowConsistent(c.row, st);
      var log := c.hist.log;
      match st
      case ClaimById(w, _, _) => AppendMark(log, ClaimedBy(w));
      case ClaimOldest(w, _, _) =>
        if c.row.status.Generating? {
          AppendMark(log, Ended(Takeover));
          AppendMark(log + [Ended(Takeover)], ClaimedBy(w));
          assert log + [Ended(Takeover)] + [ClaimedBy(w)] == log + [Ended(Takeover), ClaimedBy(w)];
        } else {
          AppendMark(log, ClaimedBy(w));
        }
      case RenewLease(_, _, _) =>
      case FinishClaimed(g) => AppendMark(log, Ended(Worker(g.worker)));
      case DeferClaimed(_, w, _, _) => AppendMark(log, Ended(Worker(w)));
      case CancelTask(_, _) => if c.row.status.Generating? { AppendMark(log, Ended(User)); }
      case RetryTask(_) =>
      case RequeueExpired(_) => AppendMark(log, Ended(Scanner));
      case TimeOutExpired(_) => AppendMark(log, Ended(Scanner));
    }
  }

  /** Histories only grow. */
  lemma AdvanceExtendsLog(c: Cell, st: Statement)
    ensures c.hist.log <= Advance(c, st).hist.log
    ensures c.hist.initial == Advance(c, st).hist.initial
    ensures c.hist.steps <= Advance(c, st).hist.steps
  {
  }

  /** The termination measure drops by at least one on every counted step, cancel and retry included. */
  function Remaining(c: Cell): int {
    3 * (RetryBound(c.hist.initial, c.row.maxRetries) - c.row.retryCount) + Phase(c.row.status)
  }

  lemma CountedStepsUseUpBudget(c: Cell, st: Statement)
    requires CellOk(c) && Matches(c.row, st) && WellBound(st)
    requires !st.RenewLease? && !(st.ClaimOldest? && c.row.status.Generating?)
    ensures Remaining(Advance(c, st)) < Remaining(c)
    ensures Advance(c, st).hist.steps == c.hist.steps + 1
  {
  }
}
