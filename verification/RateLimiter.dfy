/** The token bucket as Redis keeps it.

    A call brings its caller's reading of the clock, which the script refills by, and happens at a
    moment of Redis's own clock, which the key's time to live runs on.  Redis's clock does not run
    back; nothing is assumed of the readings unless a lemma says so. */
module RateLimiter {
  import opened Wrappers
  import opened TokenBucket

  datatype Call = Call(now: int, at: int)

  function Readings(calls: seq<Call>): (times: seq<int>)
    ensures |times| == |calls| && forall i :: 0 <= i < |calls| ==> times[i] == calls[i].now
  {
    seq(|calls|, i requires 0 <= i < |calls| => calls[i].now)
  }

  /** What the last of these calls wrote, whether or not its time to live is over. */
  function Stored(l: Limit, calls: seq<Call>): Option<Bucket>
    decreases |calls|, 0
  {
    if calls == [] then None
    else
      var last := calls[|calls| - 1];
      Some(Charged(l, Found(l, calls[..|calls| - 1], last.at), last.now))
  }

  /** What the script finds under the key after these calls. */
  function Found(l: Limit, calls: seq<Call>, at: int): Option<Bucket>
    decreases |calls|, 1
  {
    if calls == [] || at >= calls[|calls| - 1].at + l.TtlMs() then None else Stored(l, calls)
  }

  predicate GrantedByRedis(l: Limit, calls: seq<Call>, i: nat)
    requires i < |calls|
  {
    Admits(l, Found(l, calls[..i], calls[i].at), calls[i].now)
  }

  function RedisGrants(l: Limit, calls: seq<Call>, i: nat, j: nat): nat
    requires i <= j <= |calls|
    decreases j
  {
    if i == j then 0
    else RedisGrants(l, calls, i, j - 1) + (if GrantedByRedis(l, calls, j - 1) then 1 else 0)
  }

  predicate InRedisOrder(calls: seq<Call>) {
    forall i, j :: 0 <= i < j < |calls| ==> calls[i].at <= calls[j].at
  }

  // ---- Windows since the last drop ----

  /** The key was there after the call before, and is gone when this one comes. */
  predicate Dropped(l: Limit, calls: seq<Call>, i: nat)
    requires i < |calls|
  {
    i > 0 && calls[i].at >= calls[i - 1].at + l.TtlMs()
  }

  /** The last call that found no key. */
  function LastDrop(l: Limit, calls: seq<Call>, j: nat): (d: nat)
    requires j < |calls|
    ensures d <= j
  {
    if j == 0 || Dropped(l, calls, j) then j else LastDrop(l, calls, j - 1)
  }

  lemma {:induction false} FoundSinceDrop(l: Limit, calls: seq<Call>, j: nat)
    requires j < |calls|
    ensures Found(l, calls[..j], calls[j].at) == After(l, Readings(calls)[LastDrop(l, calls, j)..j])
  {
    var d := LastDrop(l, calls, j);
    if d < j {
      FoundSinceDrop(l, calls, j - 1);
      assert calls[..j][..j - 1] == calls[..j - 1];
      assert Readings(calls)[d..j][..j - 1 - d] == Readings(calls)[d..j - 1];
    }
  }

  /** What the window from call i leaves to spend at call j. */
  function RedisHeadroom(l: Limit, calls: seq<Call>, i: nat, j: nat): int
    requires i <= j < |calls|
  {
    l.Full() + Forward(Readings(calls), i, j) * l.capacity - RedisGrants(l, calls, i, j) * l.Window()
  }

  lemma GrantSinceDropAgrees(l: Limit, calls: seq<Call>, k: nat)
    requires k < |calls|
    ensures var d := LastDrop(l, calls, k);
            Granted(l, Readings(calls)[d..], k - d) <==> GrantedByRedis(l, calls, k)
  {
    var d := LastDrop(l, calls, k);
    FoundSinceDrop(l, calls, k);
    assert Readings(calls)[d..][..k - d] == Readings(calls)[d..k];
  }

  lemma {:induction false} WindowsSinceDropAgree(l: Limit, calls: seq<Call>, i: nat, j: nat)
    requires j < |calls| && LastDrop(l, calls, j) <= i <= j
    ensures var d := LastDrop(l, calls, j);
            var since := Readings(calls)[d..];
            && Forward(since, i - d, j - d) == Forward(Readings(calls), i, j)
            && Grants(l, since, i - d, j - d) == RedisGrants(l, calls, i, j)
    decreases j
  {
    if i < j {
      var d := LastDrop(l, calls, j);
      var since := Readings(calls)[d..];
      assert LastDrop(l, calls, j - 1) == d;
      WindowsSinceDropAgree(l, calls, i, j - 1);
      GrantSinceDropAgrees(l, calls, j - 1);
    }
  }

  /** The exact answer, for every sequence of calls and readings: a call is granted just when every
      window that ends at it, and starts no earlier than the last drop of the key, has room for one
      more token. */
  lemma GrantedIffEveryWindowSinceDropAllows(l: Limit, calls: seq<Call>, j: nat)
    requires l.Valid() && j < |calls|
    ensures GrantedByRedis(l, calls, j) <==>
            forall i :: LastDrop(l, calls, j) <= i <= j ==> RedisHeadroom(l, calls, i, j) >= l.Window()
  {
    var d := LastDrop(l, calls, j);
    var since := Readings(calls)[d..];
    FoundSinceDrop(l, calls, j);
    assert since[..j - d] == Readings(calls)[d..j];
    var n := j - d;
    GrantedIffEveryWindowAllows(l, since, n);
    forall i | d <= i <= j
      ensures RedisHeadroom(l, calls, i, j) == Headroom(l, since, i - d, j - d)
    {
      WindowsSinceDropAgree(l, calls, i, j);
    }
    if forall i :: d <= i <= j ==> RedisHeadroom(l, calls, i, j) >= l.Window() {
      forall k | 0 <= k <= n
        ensures Headroom(l, since, k, n) >= l.Window()
      {
        assert RedisHeadroom(l, calls, k + d, j) >= l.Window();
      }
    }
  }

  // ---- When a drop shows ----

  function ContentAt(l: Limit, calls: seq<Call>, i: nat): int
    requires i < |calls|
  {
    TokensAt(l, Found(l, calls[..i], calls[i].at), calls[i].now)
  }

  /** The content had the key never been dropped. */
  function KeptContentAt(l: Limit, calls: seq<Call>, i: nat): int
    requires i < |calls|
  {
    TokensAt(l, After(l, Readings(calls)[..i]), calls[i].now)
  }

  /** The dropped bucket had not been full again by this call's reading. */
  predicate DropShows(l: Limit, calls: seq<Call>, i: nat)
    requires i < |calls|
  {
    Dropped(l, calls, i) && TokensAt(l, Stored(l, calls[..i]), calls[i].now) < l.Full()
  }

  predicate NoDropShows(l: Limit, calls: seq<Call>) {
    forall i :: 0 <= i < |calls| ==> !DropShows(l, calls, i)
  }

  lemma StoredIsKept(l: Limit, calls: seq<Call>, n: nat)
    requires n <= |calls| && forall i :: 0 <= i < n ==> ContentAt(l, calls, i) == KeptContentAt(l, calls, i)
    ensures Stored(l, calls[..n]) == After(l, Readings(calls)[..n])
  {
    if n > 0 {
      assert calls[..n][..n - 1] == calls[..n - 1];
      assert Readings(calls)[..n][..n - 1] == Readings(calls)[..n - 1];
      assert ContentAt(l, calls, n - 1) == KeptContentAt(l, calls, n - 1);
    }
  }

  lemma {:induction false} DropsUpTo(l: Limit, calls: seq<Call>, n: nat)
    requires n <= |calls|
    ensures (forall i :: 0 <= i < n ==> ContentAt(l, calls, i) == KeptContentAt(l, calls, i))
            <==> (forall i :: 0 <= i < n ==> !DropShows(l, calls, i))
  {
    if n > 0 {
      DropsUpTo(l, calls, n - 1);
      if forall i :: 0 <= i < n - 1 ==> ContentAt(l, calls, i) == KeptContentAt(l, calls, i) {
        StoredIsKept(l, calls, n - 1);
        assert ContentAt(l, calls, n - 1) == KeptContentAt(l, calls, n - 1) <==> !DropShows(l, calls, n - 1);
      }
    }
  }

  /** Dropping keys changes no content exactly when every dropped bucket had filled up by the reading
      of the next call. */
  lemma DropsAreInvisibleIffNoneShows(l: Limit, calls: seq<Call>)
    ensures (forall i :: 0 <= i < |calls| ==> ContentAt(l, calls, i) == KeptContentAt(l, calls, i))
            <==> NoDropShows(l, calls)
  {
    DropsUpTo(l, calls, |calls|);
  }

  /** And then no answer changes either. */
  lemma {:induction false} SameGrantsIfNoDropShows(l: Limit, calls: seq<Call>, i: nat, j: nat)
    requires NoDropShows(l, calls) && i <= j <= |calls|
    ensures RedisGrants(l, calls, i, j) == Grants(l, Readings(calls), i, j)
    ensures forall k :: i <= k < j ==> (GrantedByRedis(l, calls, k) <==> Granted(l, Readings(calls), k))
    decreases j
  {
    DropsAreInvisibleIffNoneShows(l, calls);
    if i < j {
      SameGrantsIfNoDropShows(l, calls, i, j - 1);
      assert ContentAt(l, calls, j - 1) == KeptContentAt(l, calls, j - 1);
    }
  }

  // ---- How far clocks may disagree ----

  /** No caller's clock gains or loses more than `skew` on Redis's between two calls. */
  predicate ClocksWithin(calls: seq<Call>, skew: nat) {
    forall i, j :: 0 <= i < j < |calls| ==>
      0 - skew <= (calls[j].now - calls[i].now) - (calls[j].at - calls[i].at) <= skew
  }

  lemma {:induction false} StoredInRange(l: Limit, calls: seq<Call>)
    requires l.Valid() && calls != []
    ensures 0 <= Stored(l, calls).value.tokens <= l.Full()
    decreases |calls|
  {
    FullCoversOneToken(l);
    var init, last := calls[..|calls| - 1], calls[|calls| - 1];
    if Found(l, init, last.at).Some? {
      StoredInRange(l, init);
      ElapsedRefills(l, Stored(l, init).value, last.now);
    }
  }

  lemma DropIsHidden(l: Limit, calls: seq<Call>, skew: nat, i: nat)
    requires l.Valid() && ClocksWithin(calls, skew) && skew <= l.Window() && i < |calls|
    ensures !DropShows(l, calls, i)
  {
    if Dropped(l, calls, i) {
      var key := Stored(l, calls[..i]).value;
      StoredInRange(l, calls[..i]);
      assert key.refreshedAt == calls[i - 1].now;
      assert calls[i].now - calls[i - 1].now >= l.Window();
      ProductIsMonotone(l.Window(), calls[i].now - calls[i - 1].now, l.capacity);
      FullCoversOneToken(l);
    }
  }

  /** Calls at one moment, all with the same reading, each take a token. */
  function Burst(n: nat, now: int): (calls: seq<Call>)
    ensures |calls| == n && forall i :: 0 <= i < n ==> calls[i] == Call(now, 0)
  {
    seq(n, _ => Call(now, 0))
  }

  lemma {:induction false} BurstDrains(l: Limit, n: nat, now: int)
    requires l.Valid() && 1 <= n <= l.capacity
    ensures Stored(l, Burst(n, now)) == Some(Bucket((l.capacity - n) * l.Window(), now))
  {
    FullCoversOneToken(l);
    assert Burst(n, now)[..n - 1] == Burst(n - 1, now);
    SumTimes(l.capacity - n, 1, l.Window());
    ProductIsMonotone(0, l.capacity - n, l.Window());
    if n > 1 {
      BurstDrains(l, n - 1, now);
      ProductIsMonotone(l.capacity - n + 1, l.capacity, l.Window());
    }
  }

  /** A bucket drained at once and asked for again, one millisecond of reading before it is full, when
      Redis has just dropped it. */
  function LateCall(l: Limit, now: int): seq<Call>
    requires l.Valid()
  {
    Burst(l.capacity, now) + [Call(now + l.Window() - 1, l.TtlMs())]
  }

  lemma LateCallShows(l: Limit, now: int)
    requires l.Valid()
    ensures InRedisOrder(LateCall(l, now)) && ClocksWithin(LateCall(l, now), l.Window() + 1)
    ensures !NoDropShows(l, LateCall(l, now))
  {
    var calls := LateCall(l, now);
    var n := l.capacity;
    FullCoversOneToken(l);
    BurstDrains(l, n, now);
    assert calls[..n] == Burst(n, now);
    ProductIsMonotone(0, l.Window() - 1, l.capacity);
    SumTimes(l.Window() - 1, 1, l.capacity);
    assert DropShows(l, calls, n);
  }

  lemma NoDropShowsWithin(l: Limit, calls: seq<Call>, skew: nat)
    requires l.Valid() && ClocksWithin(calls, skew) && skew <= l.Window()
    ensures NoDropShows(l, calls)
  {
    forall i | 0 <= i < |calls|
      ensures !DropShows(l, calls, i)
    {
      DropIsHidden(l, calls, skew, i);
    }
  }

  /** No drop ever shows, whatever is called when, exactly when no two readings disagree by more than
      a window, beyond the time that Redis counts between them. */
  lemma DropsNeverShowIffClocksWithinWindow(l: Limit, skew: nat)
    requires l.Valid()
    ensures (forall calls :: InRedisOrder(calls) && ClocksWithin(calls, skew) ==> NoDropShows(l, calls))
            <==> skew <= 1000 * l.windowSeconds
  {
    if skew <= l.Window() {
      forall calls | InRedisOrder(calls) && ClocksWithin(calls, skew)
        ensures NoDropShows(l, calls)
      {
        NoDropShowsWithin(l, calls, skew);
      }
    } else {
      LateCallShows(l, 0);
      WiderClocks(LateCall(l, 0), l.Window() + 1, skew);
    }
  }

  /** Every reading is within `bound` of Redis's clock. */
  predicate NearRedis(calls: seq<Call>, bound: nat) {
    forall i :: 0 <= i < |calls| ==> 0 - bound <= calls[i].now - calls[i].at <= bound
  }

  /** What can be seen to one caller at a time: no drop ever shows exactly when every reading is within
      half a window of Redis's clock, for one caller may be ahead and another behind. */
  lemma DropsNeverShowIffWithinHalfWindowOfRedis(l: Limit, bound: nat)
    requires l.Valid()
    ensures (forall calls :: InRedisOrder(calls) && NearRedis(calls, bound) ==> NoDropShows(l, calls))
            <==> 2 * bound <= 1000 * l.windowSeconds
  {
    if 2 * bound <= l.Window() {
      forall calls | InRedisOrder(calls) && NearRedis(calls, bound)
        ensures NoDropShows(l, calls)
      {
        assert ClocksWithin(calls, 2 * bound);
        NoDropShowsWithin(l, calls, 2 * bound);
      }
    } else {
      var ahead := if bound < l.Window() then bound else l.Window();
      LateCallShows(l, ahead);
      assert NearRedis(LateCall(l, ahead), bound);
    }
  }

  lemma WiderClocks(calls: seq<Call>, narrow: nat, wide: nat)
    requires ClocksWithin(calls, narrow) && narrow <= wide
    ensures ClocksWithin(calls, wide)
  {
  }

  /** A clock ten seconds fast and a correct one, two and a half seconds apart: Redis has dropped the
      key, and the second call is granted though the bucket it left was empty. */
  lemma DropCanShow()
    ensures var l, calls := Limit(1, 1), [Call(10000, 0), Call(2500, 2500)];
            l.Valid() && GrantedByRedis(l, calls, 1) && !Granted(l, Readings(calls), 1)
  {
    var l, calls := Limit(1, 1), [Call(10000, 0), Call(2500, 2500)];
    assert calls[..1] == [Call(10000, 0)] && Found(l, calls[..1], 2500) == None;
    assert Readings(calls)[..1] == [10000] && [10000][..0] == [];
    assert After(l, []) == None && After(l, [10000]) == Some(Bucket(0, 10000));
  }

  // ---- The promised rate ----

  /** With readings that do not run back, and no drop that shows, the calls between two moments are
      granted at most a full bucket plus the refill of the time between them. */
  lemma RedisRateIsBounded(l: Limit, calls: seq<Call>, i: nat, j: nat, from: int, to: int)
    requires l.Valid() && Nondecreasing(Readings(calls)) && NoDropShows(l, calls) && i <= j <= |calls|
    requires from <= to && forall k :: i <= k < j ==> from <= calls[k].now <= to
    ensures RedisGrants(l, calls, i, j) * (1000 * l.windowSeconds)
            <= l.capacity * (1000 * l.windowSeconds) + (to - from) * l.capacity
  {
    SameGrantsIfNoDropShows(l, calls, i, j);
    RateIsBounded(l, Readings(calls), i, j, from, to);
  }

  predicate ReadWithin(calls: seq<Call>, from: int, to: int) {
    forall k :: 0 <= k < |calls| ==> from <= calls[k].now <= to
  }

  predicate KeepsRate(l: Limit, calls: seq<Call>, from: int, to: int) {
    RedisGrants(l, calls, 0, |calls|) * (1000 * l.windowSeconds)
    <= l.capacity * (1000 * l.windowSeconds) + (to - from) * l.capacity
  }

  /** All at one moment, with these readings. */
  function AtOnce(times: seq<int>): (calls: seq<Call>)
    ensures |calls| == |times| && forall i :: 0 <= i < |times| ==> calls[i] == Call(times[i], 0)
  {
    seq(|times|, i requires 0 <= i < |times| => Call(times[i], 0))
  }

  lemma AtOnceDropsNothing(l: Limit, times: seq<int>)
    requires l.Valid()
    ensures InRedisOrder(AtOnce(times)) && NoDropShows(l, AtOnce(times)) && Readings(AtOnce(times)) == times
  {
    forall i | 0 <= i < |times|
      ensures !DropShows(l, AtOnce(times), i)
    {
      assert !Dropped(l, AtOnce(times), i);
    }
  }

  /** A run over two readings, at one moment of Redis's clock, that is granted more than any bound. */
  function TwoClocks(from: int, to: int, bound: nat): seq<Call> {
    AtOnce(Alternating(from, to, bound + 1))
  }

  lemma TwoClocksBeatAnyBound(l: Limit, from: int, to: int, bound: nat)
    requires l.Valid() && from < to
    ensures var calls := TwoClocks(from, to, bound);
            && InRedisOrder(calls) && NoDropShows(l, calls) && ReadWithin(calls, from, to)
            && RedisGrants(l, calls, 0, |calls|) * l.Window() > bound
  {
    var times := Alternating(from, to, bound + 1);
    AtOnceDropsNothing(l, times);
    SameGrantsIfNoDropShows(l, AtOnce(times), 0, |times|);
    AlternatingBeatsAnyBound(l, from, to, bound);
  }

  /** If readings may run back between two values the bound fails for some run, so it holds for all
      runs exactly when there is only one value to read. */
  lemma RateHoldsForAllRunsIffReadingsAgree(l: Limit, from: int, to: int)
    requires l.Valid() && from <= to
    ensures (forall calls :: InRedisOrder(calls) && NoDropShows(l, calls) && ReadWithin(calls, from, to)
                             ==> KeepsRate(l, calls, from, to))
            <==> from == to
  {
    if from == to {
      forall calls | InRedisOrder(calls) && NoDropShows(l, calls) && ReadWithin(calls, from, to)
        ensures KeepsRate(l, calls, from, to)
      {
        RedisRateIsBounded(l, calls, 0, |calls|, from, to);
      }
    } else {
      FullCoversOneToken(l);
      ProductIsMonotone(0, to - from, l.capacity);
      var bound := l.Full() + (to - from) * l.capacity;
      TwoClocksBeatAnyBound(l, from, to, bound);
      assert !KeepsRate(l, TwoClocks(from, to, bound), from, to);
    }
  }

  // ---- The limiter ----

  datatype Answer = Allowed | TooManyRequests | LimiterUnavailable

  /** A call works, or fails after Redis did or did not run the script. */
  datatype Fate = Works | Fails(applied: bool)

  datatype Entry = Entry(bucket: Bucket, dropAt: int)

  /** The keys are as these calls, and no others, have left this one. */
  predicate LeftIn(keys: map<string, Entry>, key: string, l: Limit, calls: seq<Call>) {
    if calls == [] then key !in keys
    else key in keys && keys[key] == Entry(Stored(l, calls).value, calls[|calls| - 1].at + l.TtlMs())
  }

  /** What the script finds. */
  function BucketIn(keys: map<string, Entry>, key: string, at: int): Option<Bucket> {
    if key in keys && at < keys[key].dropAt then Some(keys[key].bucket) else None
  }

  lemma OneMoreCall(keys: map<string, Entry>, key: string, l: Limit, calls: seq<Call>, call: Call)
    requires LeftIn(keys, key, l, calls)
    ensures GrantedByRedis(l, calls + [call], |calls|) <==> Admits(l, BucketIn(keys, key, call.at), call.now)
    ensures LeftIn(keys[key := Entry(Charged(l, BucketIn(keys, key, call.at), call.now), call.at + l.TtlMs())],
                   key, l, calls + [call])
  {
    assert (calls + [call])[..|calls|] == calls;
    assert Found(l, calls, call.at) == BucketIn(keys, key, call.at);
  }

  lemma TokensInNumbers(l: Limit, found: Option<Bucket>, now: int)
    requires l.Valid()
    ensures l.Window() == 1000 * l.windowSeconds && l.TtlMs() == 2000 * l.windowSeconds
    ensures found == None ==> TokensAt(l, found, now) == l.capacity * (1000 * l.windowSeconds)
    ensures found.Some? ==>
              var b := found.value;
              var full := l.capacity * (1000 * l.windowSeconds);
              var filled := b.tokens + (if now < b.refreshedAt then 0 else (now - b.refreshedAt) * l.capacity);
              TokensAt(l, found, now) == if filled < full then filled else full
  {
  }

  class RedisTokenBucketLimiter {
    const enabled: bool
    const failOpen: bool
    var available: bool
    var keys: map<string, Entry>

    constructor (enabled: bool, failOpen: bool, connected: bool)
      ensures this.enabled == enabled && this.failOpen == failOpen
      ensures available == (enabled && connected) && keys == map[]
    {
      this.enabled, this.failOpen := enabled, failOpen;
      available, keys := enabled && connected, map[];
    }

    /** The key is as these calls, and no others, have left it. */
    predicate LeftBy(key: string, l: Limit, calls: seq<Call>)
      reads this
    {
      LeftIn(keys, key, l, calls)
    }

    /** Tokens at hand, in units of a millisecond's refill of one token: all of them when the key is new
        or has run out, else what was left plus the refill of the time since, up to all. */
    function TokensNow(key: string, l: Limit, call: Call): int
      reads this`keys
    {
      var full := l.capacity * (1000 * l.windowSeconds);
      if key !in keys || call.at >= keys[key].dropAt then full
      else
        var b := keys[key].bucket;
        var filled := b.tokens + (if call.now < b.refreshedAt then 0 else (call.now - b.refreshedAt) * l.capacity);
        if filled < full then filled else full
    }

    /** The script, one atomic step on one key: whatever calls went before, it answers and leaves the
        key as one more call does. */
    method EvalTokenBucket(key: string, l: Limit, call: Call) returns (allowed: bool)
      requires l.Valid()
      modifies this`keys
      ensures forall calls :: old(LeftBy(key, l, calls)) ==>
                && LeftBy(key, l, calls + [call])
                && (allowed <==> GrantedByRedis(l, calls + [call], |calls|))
      ensures allowed <==> old(TokensNow(key, l, call)) >= 1000 * l.windowSeconds
      ensures keys == old(keys)[key := Entry(
                Bucket(old(TokensNow(key, l, call)) - (if allowed then 1000 * l.windowSeconds else 0), call.now),
                call.at + 2000 * l.windowSeconds)]
    {
      ghost var before := keys;
      ghost var found := BucketIn(keys, key, call.at);
      TokensInNumbers(l, found, call.now);
      var tokens, refreshedAt := l.Full(), call.now;
      if key in keys && call.at < keys[key].dropAt {
        tokens, refreshedAt := keys[key].bucket.tokens, keys[key].bucket.refreshedAt;
      }
      var elapsed := if call.now - refreshedAt < 0 then 0 else call.now - refreshedAt;
      var refill := elapsed * l.capacity;
      tokens := Min(l.Full(), tokens + refill);
      assert tokens == TokensAt(l, found, call.now);
      allowed := false;
      if tokens >= l.Window() {
        tokens := tokens - l.Window();
        allowed := true;
      }
      keys := keys[key := Entry(Bucket(tokens, call.now), call.at + l.TtlMs())];
      forall calls | old(LeftBy(key, l, calls))
        ensures LeftBy(key, l, calls + [call]) && (allowed <==> GrantedByRedis(l, calls + [call], |calls|))
      {
        OneMoreCall(before, key, l, calls, call);
      }
    }

    /** A limiter that has failed once never asks again.  Unavailable, it lets every call through or
        none, as configured. */
    method TryAcquire(key: string, l: Limit, call: Call, fate: Fate) returns (answer: Answer)
      modifies this
      ensures !enabled || !l.Valid() ==>
                answer == Allowed && available == old(available) && keys == old(keys)
      ensures enabled && l.Valid() ==> (available <==> old(available) && fate.Works?)
      ensures enabled && l.Valid() && !available ==> answer == if failOpen then Allowed else LimiterUnavailable
      ensures enabled && l.Valid() && available ==>
                && answer != LimiterUnavailable
                && forall calls :: old(LeftBy(key, l, calls)) ==>
                     (answer == Allowed <==> GrantedByRedis(l, calls + [call], |calls|))
      ensures enabled && l.Valid() && old(available) && (fate.Works? || fate.applied) ==>
                forall calls :: old(LeftBy(key, l, calls)) ==> LeftBy(key, l, calls + [call])
      ensures !old(available) || fate == Fails(false) ==> keys == old(keys)
    {
      if !enabled || l.capacity <= 0 || l.windowSeconds <= 0 {
        return Allowed;
      }
      if !available {
        return if failOpen then Allowed else LimiterUnavailable;
      }
      var allowed := false;
      if fate.Works? || fate.applied {
        allowed := EvalTokenBucket(key, l, call);
      }
      if fate.Fails? {
        available := false;
        return if failOpen then Allowed else LimiterUnavailable;
      }
      return if allowed then Allowed else TooManyRequests;
    }
  }
}
