/** Cached list pages of one user under concurrent readers and writers.

    The table is a sequence of states, one more after every committed write.  A writer commits and
    then bumps the user's version; a reader fetches the version, looks the page up under it, and on
    a miss reads the table and stores the page.  Every client call first looks at the shared
    `available` flag and only then talks to Redis, and a call that fails, whether or not Redis did
    what it was asked, switches the flag off for good.  All of these are separate steps and
    interleave freely; the version key does not expire and there is one cache client. */
module ListCache {
  /** Which page of which list; its content is that of some table state, named by its position. */
  type Page = string

  datatype Entry = Entry(version: nat, page: Page)

  /** `floor` is how many writes had their bump attempt behind them when the reader started. */
  datatype Reader =
    | AskingVersion(page: Page, floor: nat)
    | HasVersion(page: Page, floor: nat, version: nat)
    | LookingUp(page: Page, floor: nat, version: nat)
    | Missed(page: Page, floor: nat, version: nat)
    | Read(page: Page, floor: nat, version: nat, state: nat)
    | Storing(page: Page, floor: nat, version: nat, state: nat)
    | Answered(page: Page, floor: nat, state: nat)

  /** A write at position `state`, committed; then its bump under way. */
  datatype Writer =
    | Committed(state: nat)
    | Bumping(state: nat)
    | Returned(state: nat)

  /** `base[v]`: how many writes were committed when the version became v. */
  datatype State = State(
    writes: nat,
    acknowledged: nat,
    available: bool,
    version: nat,
    base: seq<nat>,
    entries: map<Entry, nat>,
    readers: map<nat, Reader>,
    writers: map<nat, Writer>)

  datatype Event =
    | Commit(w: nat)
    | StartBump(w: nat)
    | BumpSucceeds(w: nat)
    | BumpFails(w: nat, applied: bool)
    | StartRead(r: nat, page: Page)
    | VersionArrives(r: nat)
    | VersionFails(r: nat)
    | StartGet(r: nat)
    | GetArrives(r: nat)
    | GetFails(r: nat)
    | ReadTable(r: nat)
    | StartSetex(r: nat)
    | SetexSucceeds(r: nat)
    | SetexFails(r: nat, applied: bool)
    | Evict(key: Entry)

  const Initial := State(0, 0, true, 0, [0], map[], map[], map[])

  function Max(a: nat, b: nat): nat { if a < b then b else a }

  function SetReader(s: State, r: nat, reader: Reader): State {
    s.(readers := s.readers[r := reader])
  }

  function SetWriter(s: State, w: nat, writer: Writer): State {
    s.(writers := s.writers[w := writer])
  }

  /** INCR, on behalf of a writer whose call returns with it. */
  function Increment(s: State): State {
    s.(version := s.version + 1, base := s.base + [s.writes])
  }

  /** The bump attempt is over, for better or worse. */
  function Acknowledge(s: State, w: nat, state: nat): State {
    SetWriter(s.(acknowledged := Max(s.acknowledged, state)), w, Returned(state))
  }

  function Put(s: State, key: Entry, state: nat): State {
    s.(entries := s.entries[key := state])
  }

  function WriterStep(s: State, e: Event): State {
    match e
    case Commit(w) =>
      if w !in s.writers then SetWriter(s.(writes := s.writes + 1), w, Committed(s.writes + 1)) else s
    case StartBump(w) =>
      if w in s.writers && s.writers[w].Committed? then
        if s.available then SetWriter(s, w, Bumping(s.writers[w].state))
        else Acknowledge(s, w, s.writers[w].state)
      else s
    case BumpSucceeds(w) =>
      if w in s.writers && s.writers[w].Bumping? then Acknowledge(Increment(s), w, s.writers[w].state) else s
    case BumpFails(w, applied) =>
      if w in s.writers && s.writers[w].Bumping? then
        Acknowledge((if applied then Increment(s) else s).(available := false), w, s.writers[w].state)
      else s
    case _ => s
  }

  function ReaderStep(s: State, e: Event): State {
    match e
    case StartRead(r, page) =>
      if r !in s.readers then
        SetReader(s, r, if s.available then AskingVersion(page, s.acknowledged)
                        else HasVersion(page, s.acknowledged, 0))
      else s
    case VersionArrives(r) =>
      if r in s.readers && s.readers[r].AskingVersion? then
        SetReader(s, r, HasVersion(s.readers[r].page, s.readers[r].floor, s.version))
      else s
    case VersionFails(r) =>
      if r in s.readers && s.readers[r].AskingVersion? then
        SetReader(s.(available := false), r, HasVersion(s.readers[r].page, s.readers[r].floor, 0))
      else s
    case StartGet(r) =>
      if r in s.readers && s.readers[r].HasVersion? then
        var rd := s.readers[r];
        SetReader(s, r, if s.available then LookingUp(rd.page, rd.floor, rd.version)
                        else Missed(rd.page, rd.floor, rd.version))
      else s
    case GetArrives(r) =>
      if r in s.readers && s.readers[r].LookingUp? then
        var rd := s.readers[r];
        var key := Entry(rd.version, rd.page);
        SetReader(s, r, if key in s.entries then Answered(rd.page, rd.floor, s.entries[key])
                        else Missed(rd.page, rd.floor, rd.version))
      else s
    case GetFails(r) =>
      if r in s.readers && s.readers[r].LookingUp? then
        var rd := s.readers[r];
        SetReader(s.(available := false), r, Missed(rd.page, rd.floor, rd.version))
      else s
    case ReadTable(r) =>
      if r in s.readers && s.readers[r].Missed? then
        var rd := s.readers[r];
        SetReader(s, r, Read(rd.page, rd.floor, rd.version, s.writes))
      else s
    case StartSetex(r) =>
      if r in s.readers && s.readers[r].Read? then
        var rd := s.readers[r];
        SetReader(s, r, if s.available then Storing(rd.page, rd.floor, rd.version, rd.state)
                        else Answered(rd.page, rd.floor, rd.state))
      else s
    case SetexSucceeds(r) =>
      if r in s.readers && s.readers[r].Storing? then
        var rd := s.readers[r];
        SetReader(Put(s, Entry(rd.version, rd.page), rd.state), r, Answered(rd.page, rd.floor, rd.state))
      else s
    case SetexFails(r, applied) =>
      if r in s.readers && s.readers[r].Storing? then
        var rd := s.readers[r];
        SetReader((if applied then Put(s, Entry(rd.version, rd.page), rd.state) else s).(available := false),
                  r, Answered(rd.page, rd.floor, rd.state))
      else s
    case Evict(key) => s.(entries := s.entries - {key})
    case _ => s
  }

  function Step(s: State, e: Event): State {
    if e.Commit? || e.StartBump? || e.BumpSucceeds? || e.BumpFails? then WriterStep(s, e) else ReaderStep(s, e)
  }

  function Run(s: State, events: seq<Event>): State
    decreases |events|
  {
    if events == [] then s else Run(Step(s, events[0]), events[1..])
  }

  // ---- The invariant ----

  /** Versions only move on after a write, and while the flag is on every write whose bump attempt
      is over is covered by the current version. */
  predicate VersionsOk(s: State) {
    && |s.base| == s.version + 1
    && (forall v :: 0 <= v < |s.base| ==> s.base[v] <= s.writes)
    && (forall u, v :: 0 <= u < v < |s.base| ==> s.base[u] <= s.base[v])
    && s.acknowledged <= s.writes
    && (s.available ==> s.acknowledged <= s.base[s.version])
  }

  /** A version a reader holds was either real, and covers its floor, or given for want of Redis, and
      then the flag is off. */
  predicate Covers(s: State, version: nat, floor: nat)
    requires |s.base| == s.version + 1
  {
    version <= s.version && (floor <= s.base[version] || !s.available)
  }

  predicate ReaderOk(s: State, r: Reader)
    requires |s.base| == s.version + 1
  {
    r.floor <= s.writes &&
    match r
    case AskingVersion(_, floor) => floor <= s.base[s.version]
    case HasVersion(_, floor, version) => Covers(s, version, floor)
    case LookingUp(_, floor, version) => version <= s.version && floor <= s.base[version]
    case Missed(_, floor, version) => Covers(s, version, floor)
    case Read(_, floor, version, state) => Covers(s, version, floor) && Fills(s, version, state) && floor <= state
    case Storing(_, floor, version, state) => Fills(s, version, state) && floor <= state
    case Answered(_, floor, state) => floor <= state <= s.writes
  }

  /** A page of this state may be filed under this version. */
  predicate Fills(s: State, version: nat, state: nat)
    requires |s.base| == s.version + 1
  {
    version <= s.version && s.base[version] <= state <= s.writes
  }

  predicate Inv(s: State) {
    && VersionsOk(s)
    && (forall key :: key in s.entries ==> Fills(s, key.version, s.entries[key]))
    && (forall r :: r in s.readers ==> ReaderOk(s, s.readers[r]))
    && (forall w :: w in s.writers ==> s.writers[w].state <= s.writes)
    && (forall w :: w in s.writers && s.writers[w].Returned? ==> s.writers[w].state <= s.acknowledged)
  }

  /** Everything the invariant says about one party survives any step of another. */
  predicate Grows(s: State, s': State) {
    && s.base <= s'.base && s.version <= s'.version && s.writes <= s'.writes
    && s.acknowledged <= s'.acknowledged && (s'.available ==> s.available)
  }

  lemma FillsSurvives(s: State, s': State, version: nat, state: nat)
    requires VersionsOk(s) && VersionsOk(s') && Grows(s, s') && Fills(s, version, state)
    ensures Fills(s', version, state)
  {
  }

  lemma ReaderSurvives(s: State, s': State, r: Reader)
    requires VersionsOk(s) && VersionsOk(s') && Grows(s, s') && ReaderOk(s, r)
    ensures ReaderOk(s', r)
  {
    assert forall v :: 0 <= v <= s.version ==> s.base[v] == s'.base[v];
  }

  /** A reader's step: one reader moves on, the flag may go off, and a page that fits its version may
      be filed; nothing else changes. */
  lemma ReaderMoveKeepsInv(s: State, r: nat, reader: Reader, available: bool, entries: map<Entry, nat>)
    requires Inv(s) && (available ==> s.available)
    requires forall key :: key in entries ==>
               (key in s.entries && s.entries[key] == entries[key]) || Fills(s, key.version, entries[key])
    requires ReaderOk(s.(available := available), reader)
    ensures Inv(s.(available := available, entries := entries, readers := s.readers[r := reader]))
  {
    var off := s.(available := available);
    forall q | q in s.readers
      ensures ReaderOk(off, s.readers[q])
    {
      ReaderSurvives(s, off, s.readers[q]);
    }
  }

  lemma ReaderStepKeepsInv(s: State, e: Event, r: nat)
    requires Inv(s) && r in s.readers
    requires e == VersionArrives(r) || e == VersionFails(r) || e == StartGet(r) || e == GetFails(r)
             || e == ReadTable(r) || e == StartSetex(r) || e == GetArrives(r)
    ensures Inv(Step(s, e))
  {
    var s' := Step(s, e);
    assert ReaderOk(s, s.readers[r]);
    if s' != s {
      ReaderMoveKeepsInv(s, r, s'.readers[r], s'.available, s.entries);
    }
  }

  lemma SetexKeepsInv(s: State, e: Event, r: nat)
    requires Inv(s) && r in s.readers
    requires e == SetexSucceeds(r) || (e.SetexFails? && e.r == r)
    ensures Inv(Step(s, e))
  {
    var s' := Step(s, e);
    assert ReaderOk(s, s.readers[r]);
    if s' != s {
      ReaderMoveKeepsInv(s, r, s'.readers[r], s'.available, s'.entries);
    }
  }

  lemma StartReadKeepsInv(s: State, r: nat, page: Page)
    requires Inv(s)
    ensures Inv(Step(s, StartRead(r, page)))
  {
    var s' := Step(s, StartRead(r, page));
    if s' != s {
      ReaderMoveKeepsInv(s, r, s'.readers[r], s.available, s.entries);
    }
  }

  lemma EvictKeepsInv(s: State, key: Entry)
    requires Inv(s)
    ensures Inv(Step(s, Evict(key)))
  {
    var s' := Step(s, Evict(key));
    forall r | r in s'.readers
      ensures ReaderOk(s', s'.readers[r])
    {
      ReaderSurvives(s, s', s.readers[r]);
    }
  }

  lemma CommitKeepsInv(s: State, w: nat)
    requires Inv(s)
    ensures Inv(Step(s, Commit(w)))
  {
    var s' := Step(s, Commit(w));
    forall r | r in s'.readers
      ensures ReaderOk(s', s'.readers[r])
    {
      ReaderSurvives(s, s', s.readers[r]);
    }
  }

  lemma IncrementKeepsInv(s: State)
    requires Inv(s)
    ensures Inv(Increment(s)) && Increment(s).base[Increment(s).version] == s.writes
  {
    var s' := Increment(s);
    assert VersionsOk(s');
    forall r | r in s'.readers
      ensures ReaderOk(s', s'.readers[r])
    {
      ReaderSurvives(s, s', s.readers[r]);
    }
    forall key | key in s'.entries
      ensures Fills(s', key.version, s'.entries[key])
    {
      FillsSurvives(s, s', key.version, s.entries[key]);
    }
  }

  lemma SwitchingOffKeepsInv(s: State)
    requires Inv(s)
    ensures Inv(s.(available := false))
  {
    var s' := s.(available := false);
    forall r | r in s'.readers
      ensures ReaderOk(s', s'.readers[r])
    {
      ReaderSurvives(s, s', s.readers[r]);
    }
  }

  /** Acknowledging is safe once the version covers the write or the flag is off. */
  lemma WriterMoveKeepsInv(s: State, w: nat, state: nat, writer: Writer)
    requires Inv(s) && w in s.writers && s.writers[w].state == state && writer.state == state
    requires s.available && writer.Returned? ==> s.base[s.version] == s.writes
    ensures Inv(if writer.Returned? then Acknowledge(s, w, state) else SetWriter(s, w, writer))
  {
    var s' := if writer.Returned? then Acknowledge(s, w, state) else SetWriter(s, w, writer);
    forall r | r in s'.readers
      ensures ReaderOk(s', s'.readers[r])
    {
      ReaderSurvives(s, s', s.readers[r]);
    }
  }

  lemma BumpKeepsInv(s: State, e: Event, w: nat)
    requires Inv(s) && w in s.writers && s.writers[w].Bumping?
    requires e == BumpSucceeds(w) || (e.BumpFails? && e.w == w)
    ensures Inv(Step(s, e))
  {
    var state := s.writers[w].state;
    IncrementKeepsInv(s);
    if e.BumpSucceeds? {
      WriterMoveKeepsInv(Increment(s), w, state, Returned(state));
    } else {
      SwitchingOffKeepsInv(s);
      SwitchingOffKeepsInv(Increment(s));
      WriterMoveKeepsInv((if e.applied then Increment(s) else s).(available := false), w, state, Returned(state));
    }
  }

  lemma StartBumpKeepsInv(s: State, w: nat)
    requires Inv(s)
    ensures Inv(Step(s, StartBump(w)))
  {
    if w in s.writers && s.writers[w].Committed? {
      var state := s.writers[w].state;
      WriterMoveKeepsInv(s, w, state, if s.available then Bumping(state) else Returned(state));
    }
  }

  lemma StepKeepsInv(s: State, e: Event)
    requires Inv(s)
    ensures Inv(Step(s, e))
  {
    match e
    case Commit(w) => CommitKeepsInv(s, w);
    case StartBump(w) => StartBumpKeepsInv(s, w);
    case BumpSucceeds(w) => if w in s.writers && s.writers[w].Bumping? { BumpKeepsInv(s, e, w); }
    case BumpFails(w, _) => if w in s.writers && s.writers[w].Bumping? { BumpKeepsInv(s, e, w); }
    case StartRead(r, page) => StartReadKeepsInv(s, r, page);
    case VersionArrives(r) => if r in s.readers { ReaderStepKeepsInv(s, e, r); }
    case VersionFails(r) => if r in s.readers { ReaderStepKeepsInv(s, e, r); }
    case StartGet(r) => if r in s.readers { ReaderStepKeepsInv(s, e, r); }
    case GetArrives(r) => if r in s.readers { ReaderStepKeepsInv(s, e, r); }
    case GetFails(r) => if r in s.readers { ReaderStepKeepsInv(s, e, r); }
    case ReadTable(r) => if r in s.readers { ReaderStepKeepsInv(s, e, r); }
    case StartSetex(r) => if r in s.readers { ReaderStepKeepsInv(s, e, r); }
    case SetexSucceeds(r) => if r in s.readers { SetexKeepsInv(s, e, r); }
    case SetexFails(r, _) => if r in s.readers { SetexKeepsInv(s, e, r); }
    case Evict(key) => EvictKeepsInv(s, key);
  }

  lemma {:induction false} RunKeepsInv(s: State, events: seq<Event>)
    requires Inv(s)
    ensures Inv(Run(s, events))
    decreases |events|
  {
    if events != [] {
      StepKeepsInv(s, events[0]);
      RunKeepsInv(Step(s, events[0]), events[1..]);
    }
  }

  predicate SameRequest(s: State, s': State, r: nat) {
    r in s.readers && r in s'.readers
    && s'.readers[r].floor == s.readers[r].floor && s'.readers[r].page == s.readers[r].page
  }

  lemma StepKeepsRequest(s: State, e: Event, r: nat)
    requires r in s.readers
    ensures SameRequest(s, Step(s, e), r)
  {
  }

  lemma {:induction false} ReaderKeepsRequest(s: State, events: seq<Event>, r: nat)
    requires r in s.readers
    ensures SameRequest(s, Run(s, events), r)
    decreases |events|
  {
    if events != [] {
      StepKeepsRequest(s, events[0], r);
      ReaderKeepsRequest(Step(s, events[0]), events[1..], r);
    }
  }

  /** However readers, writers, failures and evictions interleave: a list read that starts after a
      write's bump attempt came back, with or without success, answers from a table state that
      includes the write. */
  lemma ListReadIsFresh(before: seq<Event>, after: seq<Event>, r: nat, page: Page, w: nat)
    requires var s := Run(Initial, before);
             r !in s.readers && w in s.writers && s.writers[w].Returned?
    ensures var s := Run(Initial, before);
            var s' := Run(Step(s, StartRead(r, page)), after);
            && r in s'.readers && s'.readers[r].page == page
            && (s'.readers[r].Answered? ==> s.writers[w].state <= s'.readers[r].state <= s'.writes)
  {
    var s := Run(Initial, before);
    RunKeepsInv(Initial, before);
    var started := Step(s, StartRead(r, page));
    StepKeepsInv(s, StartRead(r, page));
    RunKeepsInv(started, after);
    ReaderKeepsRequest(started, after, r);
    assert ReaderOk(Run(started, after), Run(started, after).readers[r]);
  }

  /** What the words of that statement stand for: Redis is only asked while the client is on; a commit
      is one more write, numbered; a read of the table answers from all that are committed; a hit
      answers what was stored, and with the version that is current when the reader asks; a bump that
      works makes a new version. */
  lemma StepsMeanWhatTheySay(s: State, w: nat, r: nat, page: Page)
    ensures w !in s.writers ==>
              var s' := Step(s, Commit(w));
              s'.writes == s.writes + 1 && s'.writers == s.writers[w := Committed(s.writes + 1)]
    ensures w in s.writers && s.writers[w].Bumping? ==>
              var s' := Step(s, BumpSucceeds(w));
              s'.version == s.version + 1 && s'.writers[w] == Returned(s.writers[w].state)
    ensures r in s.readers && s.readers[r].AskingVersion? ==>
              var s' := Step(s, VersionArrives(r));
              r in s'.readers && s'.readers[r] == HasVersion(s.readers[r].page, s.readers[r].floor, s.version)
    ensures r in s.readers && s.readers[r].Missed? ==>
              var s' := Step(s, ReadTable(r));
              r in s'.readers && s'.readers[r].Read? && s'.readers[r].state == s.writes
    ensures r in s.readers && s.readers[r].LookingUp? ==>
              var s' := Step(s, GetArrives(r));
              var key := Entry(s.readers[r].version, s.readers[r].page);
              r in s'.readers &&
              if key in s.entries then s'.readers[r].Answered? && s'.readers[r].state == s.entries[key]
              else s'.readers[r].Missed?
    ensures r in s.readers && s.readers[r].Storing? ==>
              Step(s, SetexSucceeds(r)).entries ==
                s.entries[Entry(s.readers[r].version, s.readers[r].page) := s.readers[r].state]
    ensures r in s.readers && s.readers[r].Read? ==>
              var s' := Step(s, StartSetex(r));
              r in s'.readers && if s.available then s'.readers[r].Storing? else s'.readers[r].Answered?
    ensures r in s.readers && s.readers[r].HasVersion? ==>
              var s' := Step(s, StartGet(r));
              r in s'.readers && if s.available then s'.readers[r].LookingUp? else s'.readers[r].Missed?
    ensures w in s.writers && s.writers[w].Committed? ==>
              var s' := Step(s, StartBump(w));
              w in s'.writers && if s.available then s'.writers[w].Bumping? else s'.writers[w].Returned?
    ensures r !in s.readers ==>
              var s' := Step(s, StartRead(r, page));
              r in s'.readers && s'.readers[r].page == page && s'.readers[r].floor == s.acknowledged
              && (s'.readers[r].AskingVersion? <==> s.available)
  {
  }

  /** Once any call has failed the cache is never consulted again. */
  lemma {:induction false} FailureIsForGood(s: State, events: seq<Event>)
    requires !s.available
    ensures !Run(s, events).available
    decreases |events|
  {
    if events != [] {
      FailureIsForGood(Step(s, events[0]), events[1..]);
    }
  }
}
