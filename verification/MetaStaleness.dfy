/** How old the answer to a single-row read can be.

    One row of one user, seen through its cache entry by readers that look the entry up, read the
    table on a miss and store what they read, all as separate steps; writers change the table and
    delete the entry, and it may also vanish at any moment.  Nothing orders a slow reader's store
    after a writer's deletion, so only the entry's time to live limits what it leaves behind.  Times
    are seconds of one clock. */
module MetaStaleness {
  import opened Wrappers
  import opened TaskStatus
  import opened ImageRows

  /** None is a row the user does not have. */
  type Content = Option<ImageGeneration>

  const META_TERMINAL: nat := 300
  const META_INFLIGHT: nat := 5
  const NULL_MARKER: nat := 30

  function Ttl(content: Content): (ttl: nat)
    ensures ttl == 30 || ttl == 300 || ttl == 5
  {
    if content.None? then NULL_MARKER
    else if IsTerminal(content.value.status) then META_TERMINAL
    else META_INFLIGHT
  }

  /** What the table holds from a moment on, until the next span begins. */
  datatype Span = Span(from: int, content: Content)

  /** `readAt` is when the table gave the content, for the record. */
  datatype Entry = Entry(content: Content, expiresAt: int, readAt: int)

  datatype Reader =
    | Missed
    | Loaded(content: Content, readAt: int)
    | Answered(content: Content, readAt: int, at: int)

  datatype State = State(clock: int, table: seq<Span>, entry: Option<Entry>, readers: map<nat, Reader>)

  datatype Event =
    | Pass(time: nat)
    | Commit(content: Content)
    | Vanish                          // a writer's deletion, an eviction
    | Get(r: nat)
    | Read(r: nat)
    | CreateRow(r: nat, content: Content)  // an insert, whose row the same call then stores
    | Put(r: nat)

  function Start(content: Content): State {
    State(0, [Span(0, content)], None, map[])
  }

  function SetReader(s: State, r: nat, reader: Reader): State {
    s.(readers := s.readers[r := reader])
  }

  function Current(s: State): Content
    requires s.table != []
  {
    s.table[|s.table| - 1].content
  }

  function Apply(s: State, e: Event): (s': State)
    requires s.table != []
    ensures s'.table != []
  {
    match e
    case Pass(time) => s.(clock := s.clock + time)
    case Commit(content) => s.(table := s.table + [Span(s.clock, content)])
    case Vanish => s.(entry := None)
    case Get(r) =>
      if r in s.readers then s
      else if s.entry.Some? && s.clock < s.entry.value.expiresAt then
        SetReader(s, r, Answered(s.entry.value.content, s.entry.value.readAt, s.clock))
      else SetReader(s, r, Missed)
    case Read(r) =>
      if r in s.readers && s.readers[r].Missed? then SetReader(s, r, Loaded(Current(s), s.clock)) else s
    case CreateRow(r, content) =>
      if r in s.readers then s
      else SetReader(s.(table := s.table + [Span(s.clock, content)]), r, Loaded(content, s.clock))
    case Put(r) =>
      if r in s.readers && s.readers[r].Loaded? then
        var content, readAt := s.readers[r].content, s.readers[r].readAt;
        SetReader(s.(entry := Some(Entry(content, s.clock + Ttl(content), readAt))),
                  r, Answered(content, readAt, s.clock))
      else s
  }

  /** A call that inserts the row has it to store as it is then. */
  lemma CreateLoadsItsRow(s: State, r: nat, content: Content)
    requires s.table != [] && r !in s.readers
    ensures var s' := Apply(s, CreateRow(r, content));
            && s'.table == s.table + [Span(s.clock, content)]
            && r in s'.readers && s'.readers[r] == Loaded(content, s.clock)
  {
  }

  function At(start: Content, events: seq<Event>, n: nat): (s: State)
    requires n <= |events|
    ensures s.table != []
  {
    if n == 0 then Start(start) else Apply(At(start, events, n - 1), events[n - 1])
  }

  /** No reader takes longer than `delay` from the table's answer to storing it. */
  predicate InTime(s: State, e: Event, delay: nat) {
    e.Put? && e.r in s.readers && s.readers[e.r].Loaded? ==> s.clock <= s.readers[e.r].readAt + delay
  }

  predicate AllInTime(start: Content, events: seq<Event>, delay: nat) {
    forall n :: 0 <= n < |events| ==> InTime(At(start, events, n), events[n], delay)
  }

  /** At moment m the table held this content, span i. */
  predicate SpanHolds(table: seq<Span>, i: nat, content: Content, m: int) {
    i < |table| && table[i].content == content && table[i].from <= m && (i + 1 < |table| ==> m <= table[i + 1].from)
  }

  predicate Held(table: seq<Span>, content: Content, m: int) {
    exists i :: 0 <= i < |table| && SpanHolds(table, i, content, m)
  }

  predicate Inv(s: State, delay: nat) {
    && s.table != []
    && (forall i :: 0 <= i < |s.table| ==> s.table[i].from <= s.clock)
    && (s.entry.Some? ==>
          && Held(s.table, s.entry.value.content, s.entry.value.readAt) && s.entry.value.readAt <= s.clock
          && s.entry.value.expiresAt <= s.entry.value.readAt + delay + Ttl(s.entry.value.content))
    && (forall r :: r in s.readers ==> ReaderOk(s, s.readers[r], delay))
  }

  predicate ReaderOk(s: State, r: Reader, delay: nat) {
    match r
    case Missed => true
    case Loaded(content, readAt) => Held(s.table, content, readAt) && readAt <= s.clock
    case Answered(content, readAt, at) =>
      Held(s.table, content, readAt) && readAt <= s.clock && at < readAt + delay + Ttl(content)
  }

  /** What the table held at a moment past stays what it held then. */
  lemma HeldStays(s: State, content: Content, m: int, next: Content)
    requires Held(s.table, content, m) && m <= s.clock
    ensures Held(s.table + [Span(s.clock, next)], content, m)
  {
    var i :| 0 <= i < |s.table| && SpanHolds(s.table, i, content, m);
    assert SpanHolds(s.table + [Span(s.clock, next)], i, content, m);
  }

  lemma CurrentIsHeld(s: State)
    requires s.table != [] && forall i :: 0 <= i < |s.table| ==> s.table[i].from <= s.clock
    ensures Held(s.table, Current(s), s.clock)
  {
    assert SpanHolds(s.table, |s.table| - 1, Current(s), s.clock);
  }

  lemma ExtendKeepsInv(s: State, content: Content, delay: nat)
    requires Inv(s, delay)
    ensures Inv(s.(table := s.table + [Span(s.clock, content)]), delay)
  {
    var s' := s.(table := s.table + [Span(s.clock, content)]);
    if s.entry.Some? {
      HeldStays(s, s.entry.value.content, s.entry.value.readAt, content);
    }
    forall r | r in s'.readers
      ensures ReaderOk(s', s'.readers[r], delay)
    {
      assert ReaderOk(s, s.readers[r], delay);
      if !s.readers[r].Missed? {
        HeldStays(s, s.readers[r].content, s.readers[r].readAt, content);
      }
    }
  }

  lemma ApplyKeepsInv(s: State, e: Event, delay: nat)
    requires Inv(s, delay) && InTime(s, e, delay)
    ensures Inv(Apply(s, e), delay)
  {
    match e
    case Pass(_) =>
    case Vanish =>
    case Commit(content) => ExtendKeepsInv(s, content, delay);
    case CreateRow(_, content) =>
      ExtendKeepsInv(s, content, delay);
      CurrentIsHeld(s.(table := s.table + [Span(s.clock, content)]));
    case Get(_) =>
    case Read(_) => CurrentIsHeld(s);
    case Put(r) => if r in s.readers { assert ReaderOk(s, s.readers[r], delay); }
  }

  lemma {:induction false} AtInv(start: Content, events: seq<Event>, n: nat, delay: nat)
    requires n <= |events| && AllInTime(start, events, delay)
    ensures Inv(At(start, events, n), delay)
  {
    if n == 0 {
    } else {
      AtInv(start, events, n - 1, delay);
      assert InTime(At(start, events, n - 1), events[n - 1], delay);
      ApplyKeepsInv(At(start, events, n - 1), events[n - 1], delay);
    }
  }

  /** The answer was true at some moment less than `age` before it was given. */
  predicate TrueWithin(s: State, answer: Reader, age: int)
    requires answer.Answered?
  {
    Held(s.table, answer.content, answer.readAt) && answer.at - age < answer.readAt
  }

  /** Thirty seconds for a row that is not there, five minutes for a final one, five seconds for one that
      waits or is being generated. */
  function MostAge(content: Content): int {
    match content
    case None => 30
    case Some(row) => if row.status in {Success, Failed, Cancelled, Timeout} then 300 else 5
  }

  /** However readers and writers interleave, an answer was true less than its time to live plus one
      fill's delay before it was given: five seconds and a fill for an unfinished task. */
  lemma AnswerIsRecent(start: Content, events: seq<Event>, n: nat, r: nat, delay: nat)
    requires n <= |events| && AllInTime(start, events, delay)
    requires r in At(start, events, n).readers && At(start, events, n).readers[r].Answered?
    ensures var s := At(start, events, n);
            TrueWithin(s, s.readers[r], delay + MostAge(s.readers[r].content))
  {
    AtInv(start, events, n, delay);
    var s := At(start, events, n);
    assert ReaderOk(s, s.readers[r], delay);
  }

  /** At no moment after `since` did the table hold this content. */
  ghost predicate NotHeldAfter(s: State, content: Content, since: int) {
    forall m :: since < m ==> !Held(s.table, content, m)
  }

  function SlowFill(next: Content, delay: nat, ttl: nat): seq<Event>
    requires ttl > 0
  {
    [Get(1), Read(1), Commit(next), Vanish, Pass(delay), Put(1), Pass(ttl - 1), Get(2)]
  }

  function Changed(content: Content, next: Content): seq<Span> {
    [Span(0, content), Span(0, next)]
  }

  /** The reader has read; then the row is changed and its entry deleted. */
  lemma SlowFillReads(content: Content, next: Content, delay: nat)
    ensures At(content, SlowFill(next, delay, Ttl(content)), 4)
            == State(0, Changed(content, next), None, map[1 := Loaded(content, 0)])
  {
    var events := SlowFill(next, delay, Ttl(content));
    assert At(content, events, 1) == State(0, [Span(0, content)], None, map[1 := Missed]);
    assert At(content, events, 2) == State(0, [Span(0, content)], None, map[1 := Loaded(content, 0)]);
    assert At(content, events, 3) == State(0, Changed(content, next), None, map[1 := Loaded(content, 0)]);
  }

  lemma SlowFillWaits(content: Content, next: Content, delay: nat)
    ensures At(content, SlowFill(next, delay, Ttl(content)), 5)
            == State(delay, Changed(content, next), None, map[1 := Loaded(content, 0)])
  {
    SlowFillReads(content, next, delay);
  }

  lemma SlowFillStores(content: Content, next: Content, delay: nat)
    ensures At(content, SlowFill(next, delay, Ttl(content)), 6)
            == State(delay, Changed(content, next), Some(Entry(content, delay + Ttl(content), 0)),
                     map[1 := Answered(content, 0, delay)])
  {
    SlowFillWaits(content, next, delay);
  }

  lemma SlowFillIsServed(content: Content, next: Content, delay: nat)
    ensures var s := At(content, SlowFill(next, delay, Ttl(content)), 8);
            && s.table == Changed(content, next)
            && 2 in s.readers && s.readers[2] == Answered(content, 0, delay + Ttl(content) - 1)
  {
    SlowFillStores(content, next, delay);
    assert At(content, SlowFill(next, delay, Ttl(content)), 7)
           == State(delay + Ttl(content) - 1, Changed(content, next), Some(Entry(content, delay + Ttl(content), 0)),
                    map[1 := Answered(content, 0, delay)]);
  }

  lemma SlowFillIsInTime(content: Content, next: Content, delay: nat)
    ensures AllInTime(content, SlowFill(next, delay, Ttl(content)), delay)
  {
    var events := SlowFill(next, delay, Ttl(content));
    SlowFillWaits(content, next, delay);
    forall n | 0 <= n < |events|
      ensures InTime(At(content, events, n), events[n], delay)
    {
      assert events[n].Put? ==> n == 5;
    }
  }

  /** And no bound below that holds: a fill that takes the whole delay, begun just before the row was
      changed and its entry deleted, and a read in the entry's last second. */
  lemma BoundIsReached(content: Content, next: Content, delay: nat)
    requires content != next
    ensures var events := SlowFill(next, delay, Ttl(content));
            var s := At(content, events, 8);
            && AllInTime(content, events, delay)
            && 2 in s.readers && s.readers[2] == Answered(content, 0, delay + Ttl(content) - 1)
            && NotHeldAfter(s, content, 0)
  {
    SlowFillIsInTime(content, next, delay);
    SlowFillIsServed(content, next, delay);
    assert forall i, m :: 0 < m ==> !SpanHolds(Changed(content, next), i, content, m);
  }

  /** The table held what the answer says at some moment less than `age` before the answer. */
  ghost predicate FreshWithin(s: State, answer: Reader, age: int)
    requires answer.Answered?
  {
    exists m :: answer.at - age < m && Held(s.table, answer.content, m)
  }

  ghost predicate AnswersWith(start: Content, events: seq<Event>, delay: nat, r: nat, content: Content) {
    && AllInTime(start, events, delay)
    && r in At(start, events, |events|).readers
    && At(start, events, |events|).readers[r].Answered?
    && At(start, events, |events|).readers[r].content == content
  }

  /** So the bound on the age of this content is exact. */
  lemma AgeBoundIsExact(content: Content, delay: nat, age: int)
    ensures (forall start, events, r :: AnswersWith(start, events, delay, r, content) ==>
               FreshWithin(At(start, events, |events|), At(start, events, |events|).readers[r], age))
            <==> age >= MostAge(content) + delay
  {
    if age >= MostAge(content) + delay {
      forall start, events, r | AnswersWith(start, events, delay, r, content)
        ensures FreshWithin(At(start, events, |events|), At(start, events, |events|).readers[r], age)
      {
        AnswerIsRecent(start, events, |events|, r, delay);
        var answer := At(start, events, |events|).readers[r];
        assert answer.at - age < answer.readAt;
      }
    } else {
      var next := if content.None? then Some(Blank) else None;
      var events := SlowFill(next, delay, Ttl(content));
      BoundIsReached(content, next, delay);
      assert AnswersWith(content, events, delay, 2, content);
      assert !FreshWithin(At(content, events, |events|), At(content, events, |events|).readers[2], age);
    }
  }

  const Blank := ImageGeneration(1, 1, "r", Queued, 0, 3, "", "", "", "", "", "", "", 0.0, 0, None, None, None, None)
}
