/** Presigned addresses and how long they are cached.

    An address is signed for a time, stored for a part of that time, and handed out to whoever finds
    it.  Looking up, signing and storing are separate steps and interleave freely; an entry may vanish
    at any moment.  Times are seconds of one clock. */
module PresignCache {
  import opened Wrappers

  /** Four fifths of the address's lifetime, but at least a second; nothing is cached for none. */
  function DerivePresignTtl(expiry: int): (ttl: int)
    ensures expiry > 0 ==> 1 <= ttl <= expiry
    ensures expiry <= 0 ==> ttl == 0
  {
    if expiry <= 0 then 0 else if 4 * expiry / 5 < 1 then 1 else 4 * expiry / 5
  }

  datatype Entry = Entry(signedAt: int, dropAt: int)

  datatype Reader =
    | Missed
    | Signed(signedAt: int)
    | Served(signedAt: int, at: int)

  datatype State = State(clock: int, entry: Option<Entry>, readers: map<nat, Reader>)

  datatype Event =
    | Pass(time: nat)
    | Vanish
    | Get(r: nat)
    | Sign(r: nat)
    | Put(r: nat)

  function SetReader(s: State, r: nat, reader: Reader): State {
    s.(readers := s.readers[r := reader])
  }

  function Apply(s: State, e: Event, ttl: int): State {
    match e
    case Pass(time) => s.(clock := s.clock + time)
    case Vanish => s.(entry := None)
    case Get(r) =>
      if r in s.readers then s
      else if s.entry.Some? && s.clock < s.entry.value.dropAt
      then SetReader(s, r, Served(s.entry.value.signedAt, s.clock))
      else SetReader(s, r, Missed)
    case Sign(r) => if r in s.readers && s.readers[r].Missed? then SetReader(s, r, Signed(s.clock)) else s
    case Put(r) =>
      if r in s.readers && s.readers[r].Signed? then
        var signedAt := s.readers[r].signedAt;
        SetReader(if ttl > 0 then s.(entry := Some(Entry(signedAt, s.clock + ttl))) else s,
                  r, Served(signedAt, s.clock))
      else s
  }

  const Start := State(0, None, map[])

  function At(events: seq<Event>, n: nat, ttl: int): State
    requires n <= |events|
  {
    if n == 0 then Start else Apply(At(events, n - 1, ttl), events[n - 1], ttl)
  }

  /** No reader takes longer than `delay` from signing to storing. */
  predicate InTime(s: State, e: Event, delay: nat) {
    e.Put? && e.r in s.readers && s.readers[e.r].Signed? ==> s.clock <= s.readers[e.r].signedAt + delay
  }

  predicate AllInTime(events: seq<Event>, ttl: int, delay: nat) {
    forall n :: 0 <= n < |events| ==> InTime(At(events, n, ttl), events[n], delay)
  }

  predicate Inv(s: State, ttl: int, delay: nat) {
    && (s.entry.Some? ==> s.entry.value.dropAt <= s.entry.value.signedAt + delay + ttl)
    && (forall r :: r in s.readers && s.readers[r].Served? ==>
          s.readers[r].at <= s.readers[r].signedAt + delay
          || s.readers[r].at < s.readers[r].signedAt + delay + ttl)
  }

  lemma ApplyKeepsInv(s: State, e: Event, ttl: int, delay: nat)
    requires Inv(s, ttl, delay) && InTime(s, e, delay)
    ensures Inv(Apply(s, e, ttl), ttl, delay)
  {
  }

  lemma {:induction false} AtInv(events: seq<Event>, n: nat, ttl: int, delay: nat)
    requires n <= |events| && AllInTime(events, ttl, delay)
    ensures Inv(At(events, n, ttl), ttl, delay)
  {
    if n > 0 {
      AtInv(events, n - 1, ttl, delay);
      assert InTime(At(events, n - 1, ttl), events[n - 1], delay);
      ApplyKeepsInv(At(events, n - 1, ttl), events[n - 1], ttl, delay);
    }
  }

  /** After this run the reader has an address that still works when it gets it. */
  predicate ServesWorking(events: seq<Event>, r: nat, ttl: int, expiry: int) {
    var s := At(events, |events|, ttl);
    r in s.readers && s.readers[r].Served? ==> s.readers[r].at < s.readers[r].signedAt + expiry
  }

  function LateHit(ttl: int, delay: nat): seq<Event>
    requires ttl > 0
  {
    [Get(1), Sign(1), Pass(delay), Put(1), Pass(ttl - 1), Get(2)]
  }

  lemma LateHitIsServed(ttl: int, delay: nat)
    requires ttl > 0
    ensures AllInTime(LateHit(ttl, delay), ttl, delay)
    ensures var s := At(LateHit(ttl, delay), 6, ttl);
            2 in s.readers && s.readers[2] == Served(0, delay + ttl - 1)
  {
    var events := LateHit(ttl, delay);
    assert At(events, 0, ttl) == Start;
    assert At(events, 1, ttl) == State(0, None, map[1 := Missed]);
    assert At(events, 2, ttl) == State(0, None, map[1 := Signed(0)]);
    assert At(events, 3, ttl) == State(delay, None, map[1 := Signed(0)]);
    var entry := Entry(0, delay + ttl);
    assert At(events, 4, ttl) == State(delay, Some(entry), map[1 := Served(0, delay)]);
    assert At(events, 5, ttl) == State(delay + ttl - 1, Some(entry), map[1 := Served(0, delay)]);
    forall n | 0 <= n < |events|
      ensures InTime(At(events, n, ttl), events[n], delay)
    {
      assert events[n].Put? ==> n == 3;
    }
  }

  /** No address is ever handed out past its expiry exactly when storing it takes no longer than the
      part of its lifetime that the cache leaves unused. */
  lemma AddressesWorkIffStoredInTime(expiry: int, delay: nat)
    requires expiry > 0
    ensures var ttl := DerivePresignTtl(expiry);
            (forall events, r :: AllInTime(events, ttl, delay) ==> ServesWorking(events, r, ttl, expiry))
            <==> delay <= expiry - ttl
  {
    var ttl := DerivePresignTtl(expiry);
    if delay <= expiry - ttl {
      forall events, r | AllInTime(events, ttl, delay)
        ensures ServesWorking(events, r, ttl, expiry)
      {
        AtInv(events, |events|, ttl, delay);
      }
    } else {
      LateHitIsServed(ttl, delay);
      assert !ServesWorking(LateHit(ttl, delay), 2, ttl, expiry);
    }
  }

  /** Which is no time at all for an address signed for one second, and a fifth of the lifetime in
      general. */
  lemma SpareTime(expiry: int)
    requires expiry > 0
    ensures var spare := expiry - DerivePresignTtl(expiry);
            if expiry == 1 then spare == 0 else 5 * spare >= expiry && 5 * (spare - 1) < expiry
  {
  }
}
