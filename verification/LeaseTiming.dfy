/** How late a lease keeper may run before a scan takes a live task away.  Times are milliseconds;
    the table floors them to seconds. */
module LeaseTiming {
  import opened Wrappers
  import opened TaskStatus
  import opened ImageRows
  import Repo = ImageRepo

  const MIN_LEASE_SECONDS: int := 30
  const HEALTH_TIMEOUT_SECONDS: int := 10

  function RenewInterval(leaseSeconds: int): int {
    if leaseSeconds / 2 < 1 then 1 else leaseSeconds / 2
  }

  /** The lease length and the longest delays: from the claim's clock reading to the keeper's start,
      from a due renewal to the keeper noticing it, and from there to the statement's effect. */
  datatype Timing = Timing(leaseSeconds: int, gate: nat, tick: nat, latency: nat)

  /** When the keeper looked at the clock, when the renewal read it, when the statement took effect. */
  datatype Renewal = Renewal(checkedAt: int, readAt: int, effectAt: int)

  /** The moment the renewal after these must have taken effect. */
  function NextDeadline(t: Timing, keeperStart: int, renewals: seq<Renewal>): int {
    (if renewals == [] then keeperStart else renewals[|renewals| - 1].checkedAt)
    + 1000 * RenewInterval(t.leaseSeconds) + t.tick + t.latency
  }

  /** A keeper that runs within its delays.  All its renewals succeed. */
  predicate Timely(t: Timing, claimRead: int, keeperStart: int, renewals: seq<Renewal>)
    decreases |renewals|
  {
    if renewals == [] then claimRead <= keeperStart <= claimRead + t.gate
    else
      var last, earlier := renewals[|renewals| - 1], renewals[..|renewals| - 1];
      && Timely(t, claimRead, keeperStart, earlier)
      && last.checkedAt <= last.readAt <= last.effectAt <= NextDeadline(t, keeperStart, earlier)
      && (if earlier == [] then keeperStart else earlier[|earlier| - 1].effectAt) <= last.checkedAt
  }

  /** The row at a moment: as the worker's claim left it, then as each renewal in effect by then left
      it. */
  function RowAt(t: Timing, claimed: ImageGeneration, renewals: seq<Renewal>, moment: int): ImageGeneration
    decreases |renewals|
  {
    if renewals == [] then claimed
    else
      var last := renewals[|renewals| - 1];
      var earlier := RowAt(t, claimed, renewals[..|renewals| - 1], moment);
      if last.effectAt <= moment
      then Execute(earlier, RenewLease(claimed.userId, claimed.worker, Repo.ExpiresAt(last.readAt, t.leaseSeconds)))
      else earlier
  }

  /** A waiting or abandoned row that the worker claims when its clock reads `claimRead`. */
  predicate ClaimedAt(t: Timing, before: ImageGeneration, claimed: ImageGeneration, worker: string, claimRead: int) {
    var now, expiresAt := Repo.DbSeconds(claimRead), Repo.ExpiresAt(claimRead, t.leaseSeconds);
    || (Matches(before, ClaimById(worker, now, expiresAt))
        && claimed == Execute(before, ClaimById(worker, now, expiresAt)))
    || (Matches(before, ClaimOldest(worker, now, expiresAt))
        && claimed == Execute(before, ClaimOldest(worker, now, expiresAt)))
  }

  /** The end of the lease at a moment: that of the last renewal in effect, else the claim's. */
  function LeaseAt(t: Timing, claimRead: int, renewals: seq<Renewal>, moment: int): int
    decreases |renewals|
  {
    if renewals == [] then (claimRead + 1000 * t.leaseSeconds) / 1000
    else if renewals[|renewals| - 1].effectAt <= moment then
      (renewals[|renewals| - 1].readAt + 1000 * t.leaseSeconds) / 1000
    else LeaseAt(t, claimRead, renewals[..|renewals| - 1], moment)
  }

  /** The renewals carry the lease: the row is still the one that was claimed, with that lease. */
  lemma {:induction false} RenewalsCarryLease(t: Timing, before: ImageGeneration, claimed: ImageGeneration,
                                              worker: string, claimRead: int, renewals: seq<Renewal>, moment: int)
    requires t.leaseSeconds >= MIN_LEASE_SECONDS && ClaimedAt(t, before, claimed, worker, claimRead)
    ensures claimed.status == Generating && claimed.worker == worker && claimed.userId == before.userId
    ensures RowAt(t, claimed, renewals, moment)
            == claimed.(leaseExpiresAt := Some(LeaseAt(t, claimRead, renewals, moment)))
    decreases |renewals|
  {
    if renewals != [] {
      RenewalsCarryLease(t, before, claimed, worker, claimRead, renewals[..|renewals| - 1], moment);
    }
  }

  /** A scan whose clock read `scanRead` runs its statements at `moment`, while the task is still
      generating and its next renewal is not overdue. */
  predicate ScannedAlive(t: Timing, claimRead: int, keeperStart: int, renewals: seq<Renewal>,
                         scanRead: int, moment: int)
  {
    && Timely(t, claimRead, keeperStart, renewals)
    && scanRead <= moment <= NextDeadline(t, keeperStart, renewals)
  }

  /** No statement that takes running rows takes this one when the clock reads `scanRead`. */
  predicate LeftAlone(row: ImageGeneration, scanRead: int) {
    var now := Repo.DbSeconds(scanRead);
    && Execute(row, RequeueExpired(now)) == row && Execute(row, TimeOutExpired(now)) == row
    && !Claimable(row, now)
  }

  lemma LeftAloneIffLeaseLasts(row: ImageGeneration, scanRead: int)
    requires row.status.Generating? && row.leaseExpiresAt.Some?
    ensures LeftAlone(row, scanRead) <==> row.leaseExpiresAt.value >= scanRead / 1000
  {
  }

  predicate WithinBudget(t: Timing) {
    t.gate + t.tick + t.latency <= 1000 * (t.leaseSeconds - t.leaseSeconds / 2)
  }

  lemma {:induction false} LiveLeaseLasts(t: Timing, claimRead: int, keeperStart: int,
                                          renewals: seq<Renewal>, scanRead: int, moment: int)
    requires t.leaseSeconds >= MIN_LEASE_SECONDS && WithinBudget(t)
    requires ScannedAlive(t, claimRead, keeperStart, renewals, scanRead, moment)
    ensures LeaseAt(t, claimRead, renewals, moment) >= scanRead / 1000
    decreases |renewals|
  {
    if renewals != [] {
      var last := renewals[|renewals| - 1];
      if last.effectAt > moment {
        LiveLeaseLasts(t, claimRead, keeperStart, renewals[..|renewals| - 1], scanRead, moment);
      }
    }
  }

  /** A claimed row that is renewed within its delays is left alone by every scan and every polling
      claim, seconds floored and all. */
  lemma LiveTaskIsLeftAlone(t: Timing, before: ImageGeneration, claimed: ImageGeneration, worker: string,
                            claimRead: int, keeperStart: int, renewals: seq<Renewal>, scanRead: int, moment: int)
    requires t.leaseSeconds >= MIN_LEASE_SECONDS && WithinBudget(t)
    requires ClaimedAt(t, before, claimed, worker, claimRead)
    requires ScannedAlive(t, claimRead, keeperStart, renewals, scanRead, moment)
    ensures LeftAlone(RowAt(t, claimed, renewals, moment), scanRead)
  {
    RenewalsCarryLease(t, before, claimed, worker, claimRead, renewals, moment);
    LiveLeaseLasts(t, claimRead, keeperStart, renewals, scanRead, moment);
    LeftAloneIffLeaseLasts(RowAt(t, claimed, renewals, moment), scanRead);
  }

  /** No scan and no polling claim ever takes a live task away, whichever row it is and however the
      delays fall, exactly when the three delays together fit in what the renewal interval leaves of
      the lease. */
  lemma NoLiveTaskIsTakenIffWithinBudget(t: Timing, worker: string)
    requires t.leaseSeconds >= MIN_LEASE_SECONDS
    ensures t.gate + t.tick + t.latency <= 1000 * (t.leaseSeconds - t.leaseSeconds / 2) <==>
            forall before, claimed, claimRead, keeperStart, renewals, scanRead, moment ::
              ClaimedAt(t, before, claimed, worker, claimRead)
              && ScannedAlive(t, claimRead, keeperStart, renewals, scanRead, moment)
              ==> LeftAlone(RowAt(t, claimed, renewals, moment), scanRead)
  {
    if WithinBudget(t) {
      forall before, claimed, claimRead, keeperStart, renewals, scanRead, moment
        | ClaimedAt(t, before, claimed, worker, claimRead)
          && ScannedAlive(t, claimRead, keeperStart, renewals, scanRead, moment)
        ensures LeftAlone(RowAt(t, claimed, renewals, moment), scanRead)
      {
        LiveTaskIsLeftAlone(t, before, claimed, worker, claimRead, keeperStart, renewals, scanRead, moment);
      }
    } else {
      var before := Repo.SampleRow(1);
      var claimed := Execute(before, ClaimById(worker, Repo.DbSeconds(999), Repo.ExpiresAt(999, t.leaseSeconds)));
      var moment := NextDeadline(t, 999 + t.gate, []);
      assert ClaimedAt(t, before, claimed, worker, 999);
      assert ScannedAlive(t, 999, 999 + t.gate, [], moment, moment);
      RenewalsCarryLease(t, before, claimed, worker, 999, [], moment);
      assert !LeftAlone(RowAt(t, claimed, [], moment), moment);
    }
  }

  /** The shortest lease tolerates a health check that uses its whole timeout, a keeper that wakes
      a full sleep late, and four seconds for everything else. */
  lemma ShortestLeaseSurvivesSlowGate(t: Timing)
    requires t.leaseSeconds >= MIN_LEASE_SECONDS
    requires t.gate <= 1000 * HEALTH_TIMEOUT_SECONDS + 2000 && t.tick <= 1000 && t.latency <= 2000
    ensures WithinBudget(t)
  {
  }
}
