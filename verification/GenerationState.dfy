/** The model service's account of the generations in progress, and what its health report may be
    trusted for.

    The service keeps start times only: each finish drops the oldest one, whichever generation it
    was that finished.  Times are seconds of a clock that does not run back. */
module GenerationState {
  datatype Event = Started(at: real) | Finished(which: nat)

  /** What is really going on: every start so far, and which of them are still running; beside it,
      the start times the service keeps. */
  datatype World = World(begun: seq<real>, running: set<nat>, kept: seq<real>)

  const Quiet := World([], {}, [])

  function Step(w: World, e: Event): World {
    match e
    case Started(at) => World(w.begun + [at], w.running + {|w.begun|}, w.kept + [at])
    case Finished(which) =>
      if which !in w.running then w
      else World(w.begun, w.running - {which}, if w.kept == [] then [] else w.kept[1..])
  }

  function Run(w: World, events: seq<Event>): World
    decreases |events|
  {
    if events == [] then w else Run(Step(w, events[0]), events[1..])
  }

  predicate Sorted(times: seq<real>) {
    forall i, j :: 0 <= i < j < |times| ==> times[i] <= times[j]
  }

  /** Starts are stamped in order, from `since` on. */
  predicate InOrder(events: seq<Event>, since: real) {
    && (forall i :: 0 <= i < |events| && events[i].Started? ==> since <= events[i].at)
    && (forall i, j :: 0 <= i < j < |events| && events[i].Started? && events[j].Started? ==>
          events[i].at <= events[j].at)
  }

  predicate Inv(w: World) {
    && Sorted(w.begun)
    && (forall k :: k in w.running ==> k < |w.begun|)
    && |w.running| <= |w.begun|
    && w.kept == w.begun[|w.begun| - |w.running|..]
  }

  lemma StartKeepsInv(w: World, at: real)
    requires Inv(w) && (w.begun != [] ==> w.begun[|w.begun| - 1] <= at)
    ensures Inv(Step(w, Started(at)))
  {
    var next := Step(w, Started(at));
    assert Sorted(next.begun);
    assert |next.running| == |w.running| + 1;
    assert next.begun[|next.begun| - |next.running|..] == w.begun[|w.begun| - |w.running|..] + [at];
  }

  lemma FinishKeepsInv(w: World, which: nat)
    requires Inv(w)
    ensures Inv(Step(w, Finished(which)))
  {
    if which in w.running {
      var next := Step(w, Finished(which));
      assert |next.running| == |w.running| - 1;
    }
  }

  /** Nothing that began comes after `since`. */
  predicate BegunBy(w: World, since: real) {
    w.begun != [] ==> w.begun[|w.begun| - 1] <= since
  }

  lemma InOrderTail(events: seq<Event>, since: real)
    requires events != [] && InOrder(events, since)
    ensures InOrder(events[1..], if events[0].Started? then events[0].at else since)
  {
  }

  lemma StepKeepsInv(w: World, e: Event, since: real)
    requires Inv(w) && BegunBy(w, since) && (e.Started? ==> since <= e.at)
    ensures Inv(Step(w, e)) && BegunBy(Step(w, e), if e.Started? then e.at else since)
  {
    match e
    case Started(at) => StartKeepsInv(w, at);
    case Finished(which) => FinishKeepsInv(w, which);
  }

  lemma {:induction false} RunKeepsInv(w: World, events: seq<Event>, since: real)
    requires Inv(w) && InOrder(events, since) && BegunBy(w, since)
    ensures Inv(Run(w, events))
    decreases |events|
  {
    if events != [] {
      var e := events[0];
      var later := if e.Started? then e.at else since;
      InOrderTail(events, since);
      assert e.Started? ==> since <= e.at;
      StepKeepsInv(w, e, since);
      RunKeepsInv(Step(w, e), events[1..], later);
    }
  }

  /** One time for each generation still running: the newest starts, in order. */
  predicate KeepsNewestStarts(w: World) {
    && |w.running| <= |w.begun|
    && w.kept == w.begun[|w.begun| - |w.running|..]
    && Sorted(w.kept)
    && (w.kept == [] <==> w.running == {})
  }

  lemma KeptMirrorsRunning(w: World)
    requires Inv(w)
    ensures KeepsNewestStarts(w)
  {
    var dropped := |w.begun| - |w.running|;
    forall i, j | 0 <= i < j < |w.kept| ensures w.kept[i] <= w.kept[j] {
      assert w.kept[i] == w.begun[dropped + i] && w.kept[j] == w.begun[dropped + j];
    }
  }

  /** After any interleaving of starts and finishes the times kept are the newest starts. */
  lemma KeptTimesAreNewestStarts(events: seq<Event>, since: real)
    requires InOrder(events, since)
    ensures KeepsNewestStarts(Run(Quiet, events))
  {
    RunKeepsInv(Quiet, events, since);
    KeptMirrorsRunning(Run(Quiet, events));
  }

  lemma {:induction false} CrowdedSetIsBounded(s: set<nat>, low: nat, high: nat)
    requires low <= high && forall k :: k in s ==> low <= k < high
    ensures |s| <= high - low
    decreases high - low
  {
    if low == high {
      assert s == {};
    } else {
      CrowdedSetIsBounded(s - {high - 1}, low, high - 1);
    }
  }

  lemma SomeOldOneRuns(s: set<nat>, n: nat)
    requires s != {} && |s| <= n && forall k :: k in s ==> k < n
    ensures exists k :: k in s && k <= n - |s|
  {
    if forall k :: k in s ==> n - |s| < k {
      CrowdedSetIsBounded(s, n - |s| + 1, n);
      assert false;
    }
  }

  lemma OldestKeptCoversARunningOne(w: World)
    requires Inv(w) && w.running != {}
    ensures w.kept != [] && exists k :: k in w.running && k < |w.begun| && w.begun[k] <= w.kept[0]
  {
    var first := |w.begun| - |w.running|;
    SomeOldOneRuns(w.running, |w.begun|);
    var k :| k in w.running && k <= first;
    assert w.kept[0] == w.begun[first];
  }

  /** Some running generation is at least as old as the oldest time kept, so the age the report gives
      never exceeds the true age of the oldest one. */
  lemma ReportedAgeIsSound(events: seq<Event>, since: real, now: real)
    requires InOrder(events, since) && Run(Quiet, events).running != {}
    ensures var w := Run(Quiet, events);
            w.kept != [] && exists k :: k in w.running && k < |w.begun| && now - w.kept[0] <= now - w.begun[k]
  {
    RunKeepsInv(Quiet, events, since);
    OldestKeptCoversARunningOne(Run(Quiet, events));
  }

  /** The time the age is counted from is the start of the oldest generation still running. */
  ghost predicate AgeIsExact(w: World)
    requires w.kept != []
  {
    exists k :: k in w.running && k < |w.begun| && w.begun[k] == w.kept[0] && forall j :: j in w.running ==> k <= j
  }

  /** With no two starts at the same time, the age is exact just while only the oldest have finished. */
  lemma AgeIsExactIffOldestFinishedFirst(w: World)
    requires Inv(w) && w.running != {}
    requires forall i, j :: 0 <= i < j < |w.begun| ==> w.begun[i] < w.begun[j]
    ensures w.kept != [] &&
            (AgeIsExact(w) <==> forall k :: k in w.running ==> |w.begun| - |w.running| <= k)
  {
    var first := |w.begun| - |w.running|;
    assert w.kept[0] == w.begun[first];
    if forall k :: k in w.running ==> first <= k {
      if first !in w.running {
        CrowdedSetIsBounded(w.running, first + 1, |w.begun|);
        assert false;
      }
    }
  }

  /** The report can make the oldest generation look younger than it is: the second of two finishes
      first, and its start time is kept instead. */
  lemma ReportedAgeCanBeTooYoung()
    ensures var w := Run(Quiet, [Started(0.0), Started(60.0), Finished(1)]);
            w.running == {0} && w.begun[0] == 0.0 && w.kept == [60.0]
  {
    var events := [Started(0.0), Started(60.0), Finished(1)];
    var w1 := Step(Quiet, events[0]);
    var w2 := Step(w1, events[1]);
    assert w2 == World([0.0, 60.0], {0, 1}, [0.0, 60.0]);
    assert Step(w2, events[2]) == World([0.0, 60.0], {0}, [60.0]);
    assert events[1..][1..][1..] == [];
    assert Run(w2, events[1..][1..]) == Step(w2, events[2]);
  }

  // ---- The object ----

  datatype Status = Loading | Unhealthy | Busy | Healthy

  datatype Snapshot = Snapshot(
    status: Status,
    isGenerating: bool,
    activeGenerations: nat,
    activeKind: string,
    activeSeconds: int,
    detail: string)

  method Minimum(times: seq<real>) returns (least: real)
    requires times != []
    ensures least in times && forall i :: 0 <= i < |times| ==> least <= times[i]
  {
    least := times[0];
    for i := 1 to |times|
      invariant least in times && forall j :: 0 <= j < i ==> least <= times[j]
    {
      if times[i] < least {
        least := times[i];
      }
    }
  }

  class GenerationState {
    var isLoading: bool
    var activeGenerations: nat
    var activeKind: string
    var lastError: string
    var starts: seq<real>

    predicate Valid()
      reads this
    {
      && activeGenerations == |starts|
      && (starts == [] ==> activeKind == "none")
      && Sorted(starts)
    }

    /** The kind tells whether anything runs, unless a generation was started under the kind "none". */
    predicate KindShows()
      reads this
    {
      activeKind == "none" <==> starts == []
    }

    constructor ()
      ensures Valid() && KindShows() && starts == [] && !isLoading && lastError == ""
    {
      isLoading, activeGenerations, activeKind, lastError, starts := false, 0, "none", "", [];
    }

    method MarkGenerationStarted(kind: string, now: real)
      requires Valid()
      requires starts != [] ==> starts[|starts| - 1] <= now
      modifies `starts, `activeGenerations, `activeKind
      ensures Valid() && activeKind == kind && (KindShows() <==> kind != "none")
      ensures starts == old(starts) + [now] && activeGenerations == |old(starts)| + 1
      ensures forall w: World :: w.kept == old(starts) ==> Step(w, Started(now)).kept == starts
    {
      starts := starts + [now];
      activeGenerations := |starts|;
      activeKind := kind;
    }

    method MarkGenerationFinished()
      requires Valid()
      modifies `starts, `activeGenerations, `activeKind
      ensures Valid() && (activeKind == old(activeKind) || starts == []) && (old(KindShows()) ==> KindShows())
      ensures starts == (if old(starts) == [] then [] else old(starts)[1..]) && activeGenerations == |starts|
      ensures |old(starts)| <= 1 ==> activeKind == "none"
      ensures forall w: World, which :: w.kept == old(starts) && which in w.running ==>
                Step(w, Finished(which)).kept == starts
    {
      if starts != [] {
        starts := starts[1..];
      }
      activeGenerations := |starts|;
      if activeGenerations == 0 {
        activeKind := "none";
      }
    }

    /** min over the kept times. */
    method OldestStart() returns (oldest: real)
      requires Valid() && starts != []
      ensures oldest == starts[0]
    {
      oldest := Minimum(starts);
    }

    method TakeSnapshot(modelLoaded: bool, busyLimit: int, now: real) returns (r: Snapshot)
      requires Valid()
      ensures r.isGenerating <==> starts != []
      ensures KindShows() ==> (r.isGenerating <==> r.activeKind != "none")
      ensures r.activeGenerations == |starts| && r.activeKind == activeKind
      ensures starts == [] ==> r.activeSeconds == 0
      ensures starts != [] && starts[0] <= now ==> r.activeSeconds == (now - starts[0]).Floor
      ensures starts != [] && now < starts[0] ==> r.activeSeconds == 0
      ensures !modelLoaded ==> r.status == (if isLoading then Loading else Unhealthy)
      ensures modelLoaded ==>
                && (r.status.Healthy? <==> starts == [])
                && (r.status.Unhealthy? <==> starts != [] && r.activeSeconds > busyLimit)
                && !r.status.Loading?
      ensures r.detail != "" <==> lastError != "" || (modelLoaded && r.status.Unhealthy?)
    {
      var seconds := 0;
      if activeGenerations > 0 {
        var oldest := OldestStart();
        var elapsed := now - oldest;
        seconds := if elapsed < 0.0 then 0 else elapsed.Floor;
      }
      var status := Healthy;
      var detail := lastError;
      if !modelLoaded {
        status := if isLoading then Loading else Unhealthy;
      } else if activeGenerations > 0 {
        if seconds > busyLimit {
          status := Unhealthy;
          if detail == "" {
            detail := "active " + activeKind + " exceeded health threshold";
          }
        } else {
          status := Busy;
        }
      }
      return Snapshot(status, activeGenerations > 0, activeGenerations, activeKind, seconds, detail);
    }
  }
}
