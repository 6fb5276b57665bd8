/** The rate limiter's token bucket while its key lives, in exact arithmetic: tokens are scaled by the window in
    milliseconds, so a token is `window` units and a refill adds `elapsed * capacity` units. */
module TokenBucket {
  import opened Wrappers

  datatype Limit = Limit(capacity: int, windowSeconds: int) {
    function Window(): int { 1000 * windowSeconds }
    function Full(): int { capacity * Window() }
    function TtlMs(): int { 1000 * (if 2 * windowSeconds < 1 then 1 else 2 * windowSeconds) }
    predicate Valid() { capacity > 0 && windowSeconds > 0 }
  }

  lemma ProductIsMonotone(a: int, b: int, c: int)
    requires a <= b && 0 <= c
    ensures a * c <= b * c
  {
  }

  lemma FullCoversOneToken(l: Limit)
    requires l.Valid()
    ensures 0 < l.Window() <= l.Full() && l.Full() == l.Window() * l.capacity
  {
    ProductIsMonotone(1, l.capacity, l.Window());
  }

  lemma SpendingAddsUp(full: int, capacity: int, window: int, forward: int, span: int, earlier: int, last: int)
    requires 0 <= capacity && forward <= span && 0 <= last <= 1
    requires full + forward * capacity - earlier * window >= if last == 1 then window else 0
    ensures (earlier + last) * window <= full + span * capacity
  {
    ProductIsMonotone(forward, span, capacity);
    assert (earlier + last) * window == earlier * window + last * window;
  }

  /** What the key holds after a call: scaled tokens and the time it was written. */
  datatype Bucket = Bucket(tokens: int, refreshedAt: int)

  function Min(a: int, b: int): int { if a < b then a else b }

  /** Scaled tokens at hand when a call arrives. */
  function TokensAt(l: Limit, key: Option<Bucket>, now: int): int {
    if key.None? then l.Full()
    else
      var elapsed := if now < key.value.refreshedAt then 0 else now - key.value.refreshedAt;
      Min(l.Full(), key.value.tokens + elapsed * l.capacity)
  }

  predicate Admits(l: Limit, key: Option<Bucket>, now: int) {
    TokensAt(l, key, now) >= l.Window()
  }

  function Charged(l: Limit, key: Option<Bucket>, now: int): Bucket {
    Bucket(TokensAt(l, key, now) - (if Admits(l, key, now) then l.Window() else 0), now)
  }

  /** Bucket contents after a run of calls, newest call last, when the key never expires. */
  function After(l: Limit, times: seq<int>): Option<Bucket>
    decreases |times|
  {
    if times == [] then None
    else Some(Charged(l, After(l, times[..|times| - 1]), times[|times| - 1]))
  }

  /** The answer to call number i. */
  predicate Granted(l: Limit, times: seq<int>, i: nat)
    requires i < |times|
  {
    Admits(l, After(l, times[..i]), times[i])
  }

  /** The number of grants among the calls from i up to but not including j. */
  function Grants(l: Limit, times: seq<int>, i: nat, j: nat): nat
    requires i <= j <= |times|
    decreases j
  {
    if i == j then 0
    else Grants(l, times, i, j - 1) + (if Granted(l, times, j - 1) then 1 else 0)
  }

  /** How far the clock ran forward between call i and call j; running back counts for nothing. */
  function Forward(times: seq<int>, i: nat, j: nat): nat
    requires i <= j < |times|
    decreases j
  {
    if i == j then 0
    else Forward(times, i, j - 1) + (if times[j] < times[j - 1] then 0 else times[j] - times[j - 1])
  }

  predicate Nondecreasing(times: seq<int>) {
    forall i, j :: 0 <= i < j < |times| ==> times[i] <= times[j]
  }

  lemma {:induction false} ForwardOfNondecreasing(times: seq<int>, i: nat, j: nat)
    requires i <= j < |times| && Nondecreasing(times)
    ensures Forward(times, i, j) == times[j] - times[i]
    decreases j
  {
    if i < j {
      ForwardOfNondecreasing(times, i, j - 1);
    }
  }

  /** What the window from call i leaves to spend at call j: a full bucket, plus the refill since
      call i, less what the calls in between were granted. */
  function Headroom(l: Limit, times: seq<int>, i: nat, j: nat): int
    requires i <= j < |times|
  {
    l.Full() + Forward(times, i, j) * l.capacity - Grants(l, times, i, j) * l.Window()
  }

  lemma SumTimes(a: int, b: int, factor: int)
    ensures (a + b) * factor == a * factor + b * factor
  {
  }

  lemma HeadroomStep(l: Limit, times: seq<int>, i: nat, j: nat)
    requires i <= j && j + 1 < |times|
    ensures var step := if times[j + 1] < times[j] then 0 else times[j + 1] - times[j];
            Headroom(l, times, i, j + 1) ==
              Headroom(l, times, i, j) + step * l.capacity - (if Granted(l, times, j) then l.Window() else 0)
  {
    var step := if times[j + 1] < times[j] then 0 else times[j + 1] - times[j];
    var g := if Granted(l, times, j) then 1 else 0;
    assert Forward(times, i, j + 1) == Forward(times, i, j) + step;
    assert Grants(l, times, i, j + 1) == Grants(l, times, i, j) + g;
    SumTimes(Forward(times, i, j), step, l.capacity);
    SumTimes(Grants(l, times, i, j), g, l.Window());
  }

  /** The bucket's content is the tightest headroom over every window that ends at this call. */
  lemma {:induction false} TokensAreTightestHeadroom(l: Limit, times: seq<int>, j: nat)
    requires l.Valid() && j < |times|
    ensures var tokens := TokensAt(l, After(l, times[..j]), times[j]);
            && (forall i :: 0 <= i <= j ==> tokens <= Headroom(l, times, i, j))
            && (exists i :: 0 <= i <= j && tokens == Headroom(l, times, i, j))
    decreases j
  {
    var tokens := TokensAt(l, After(l, times[..j]), times[j]);
    assert Headroom(l, times, j, j) == l.Full();
    if j == 0 {
      assert times[..0] == [];
    } else {
      TokensAreTightestHeadroom(l, times, j - 1);
      assert times[..j][..j - 1] == times[..j - 1];
      var before := TokensAt(l, After(l, times[..j - 1]), times[j - 1]);
      var step := if times[j] < times[j - 1] then 0 else times[j] - times[j - 1];
      assert tokens == Min(l.Full(), before - (if Granted(l, times, j - 1) then l.Window() else 0) + step * l.capacity);
      forall i | 0 <= i <= j
        ensures tokens <= Headroom(l, times, i, j)
      {
        if i < j {
          HeadroomStep(l, times, i, j - 1);
        }
      }
      if tokens != l.Full() {
        var i :| 0 <= i <= j - 1 && before == Headroom(l, times, i, j - 1);
        HeadroomStep(l, times, i, j - 1);
      }
    }
  }

  /** The content always stays between empty and full. */
  lemma {:induction false} TokensStayInRange(l: Limit, times: seq<int>)
    requires l.Valid() && times != []
    ensures 0 <= After(l, times).value.tokens <= l.Full()
    decreases |times|
  {
    FullCoversOneToken(l);
    var init, now := times[..|times| - 1], times[|times| - 1];
    if init != [] {
      TokensStayInRange(l, init);
      if now >= After(l, init).value.refreshedAt {
        ProductIsMonotone(0, now - After(l, init).value.refreshedAt, l.capacity);
      }
    }
  }

  /** The exact answer of a bucket that is never dropped, for every sequence of readings, also such as
      run backwards: a call is granted just when every window that ends at it has room for one more
      token.  RateLimiter has the bucket that Redis drops. */
  lemma GrantedIffEveryWindowAllows(l: Limit, times: seq<int>, j: nat)
    requires l.Valid() && j < |times|
    ensures Granted(l, times, j) <==> forall i :: 0 <= i <= j ==> Headroom(l, times, i, j) >= l.Window()
  {
    TokensAreTightestHeadroom(l, times, j);
  }

  /** No window is ever overdrawn, the call that ends it included. */
  lemma NoWindowIsOverdrawn(l: Limit, times: seq<int>, i: nat, j: nat)
    requires l.Valid() && i <= j < |times|
    ensures Headroom(l, times, i, j) >= if Granted(l, times, j) then l.Window() else 0
  {
    TokensAreTightestHeadroom(l, times, j);
    TokensStayInRange(l, times[..j + 1]);
    assert times[..j + 1][..j] == times[..j];
  }

  /** The promised rate: with a clock that does not run back, the calls between two moments are
      granted at most a full bucket plus the refill of the time between them. */
  lemma RateIsBounded(l: Limit, times: seq<int>, i: nat, j: nat, from: int, to: int)
    requires l.Valid() && Nondecreasing(times) && i <= j <= |times|
    requires from <= to && forall k :: i <= k < j ==> from <= times[k] <= to
    ensures Grants(l, times, i, j) * (1000 * l.windowSeconds)
            <= l.capacity * (1000 * l.windowSeconds) + (to - from) * l.capacity
  {
    if i < j {
      NoWindowIsOverdrawn(l, times, i, j - 1);
      ForwardOfNondecreasing(times, i, j - 1);
      SpendingAddsUp(l.Full(), l.capacity, l.Window(), times[j - 1] - times[i], to - from,
                     Grants(l, times, i, j - 1), if Granted(l, times, j - 1) then 1 else 0);
    } else {
      FullCoversOneToken(l);
      ProductIsMonotone(0, to - from, l.capacity);
    }
  }

  /** With clocks that disagree the wall-clock bound fails: four grants of a bucket of one in a
      second, because each reading from the fast clock refills it anew. */
  lemma SkewedClocksBeatTheRate()
    ensures var l, times := Limit(1, 1), [0, 1000, 0, 1000];
            && l.Valid() && Granted(l, times, 0) && Granted(l, times, 1)
            && !Granted(l, times, 2) && Granted(l, times, 3)
            && (forall k :: 0 <= k < 4 ==> 0 <= times[k] <= 1000)
            && Grants(l, times, 0, 4) * l.Window() > l.Full() + (1000 - 0) * l.capacity
  {
    var l, times := Limit(1, 1), [0, 1000, 0, 1000];
    assert times[..0] == [] && times[..1] == [0] && times[..2] == [0, 1000] && times[..3] == [0, 1000, 0];
    assert [0][..0] == [] && [0, 1000][..1] == [0] && [0, 1000, 0][..2] == [0, 1000];
    assert After(l, []) == None;
    assert After(l, [0]) == Some(Bucket(0, 0));
    assert After(l, [0, 1000]) == Some(Bucket(0, 1000));
    assert After(l, [0, 1000, 0]) == Some(Bucket(0, 0));
    assert Grants(l, times, 0, 1) == 1 && Grants(l, times, 0, 2) == 2 && Grants(l, times, 0, 3) == 2;
  }

  /** Callers a token's refill time apart are never turned away, whatever came before the first. */
  lemma PatientCallerIsAdmitted(l: Limit, key: Option<Bucket>, now: int)
    requires l.Valid()
    requires key.Some? ==>
               key.value.tokens >= 0 && (now - key.value.refreshedAt) * l.capacity >= 1000 * l.windowSeconds
    ensures Admits(l, key, now)
  {
    FullCoversOneToken(l);
    if key.Some? {
      if now < key.value.refreshedAt {
        ProductIsMonotone(now - key.value.refreshedAt, 0, l.capacity);
      }
    }
  }

  // ---- Clocks that disagree, for ever ----

  function Left(l: Limit, key: Option<Bucket>): int {
    if key.None? then l.Full() else key.value.tokens
  }

  /** Everything granted so far and everything still in the bucket. */
  function Budget(l: Limit, times: seq<int>): int {
    Grants(l, times, 0, |times|) * l.Window() + Left(l, After(l, times))
  }

  lemma {:induction false} GrantsOfPrefix(l: Limit, times: seq<int>, t: int, n: nat)
    requires n <= |times|
    ensures Grants(l, times + [t], 0, n) == Grants(l, times, 0, n)
  {
    if n > 0 {
      GrantsOfPrefix(l, times, t, n - 1);
      assert (times + [t])[..n - 1] == times[..n - 1];
    }
  }

  /** A call adds its refill to the budget, and nothing else. */
  lemma BudgetGrowsByRefill(l: Limit, times: seq<int>, t: int)
    ensures Budget(l, times + [t]) == Budget(l, times) + TokensAt(l, After(l, times), t) - Left(l, After(l, times))
    ensures After(l, times + [t]) == Some(Charged(l, After(l, times), t))
  {
    var n := |times|;
    assert (times + [t])[..n] == times;
    GrantsOfPrefix(l, times, t, n);
    SumTimes(Grants(l, times, 0, n), if Admits(l, After(l, times), t) then 1 else 0, l.Window());
  }

  function Alternating(low: int, high: int, rounds: nat): (times: seq<int>)
    ensures |times| == 2 * rounds && forall i :: 0 <= i < |times| ==> times[i] in {low, high}
  {
    if rounds == 0 then [] else Alternating(low, high, rounds - 1) + [low] + [high]
  }

  /** The reading that runs back adds nothing but takes a token if there is one; the other then finds
      room for at least one unit. */
  lemma RoundGrowsBudget(l: Limit, earlier: seq<int>, low: int, high: int)
    requires l.Valid() && low < high && 0 <= Left(l, After(l, earlier)) <= l.Full()
    ensures Budget(l, earlier + [low] + [high]) >= Budget(l, earlier) + 1
  {
    FullCoversOneToken(l);
    BudgetGrowsByRefill(l, earlier, low);
    BudgetGrowsByRefill(l, earlier + [low], high);
    if earlier != [] {
      ElapsedRefills(l, After(l, earlier).value, low);
    }
    ProductIsMonotone(1, high - low, l.capacity);
  }

  /** Two clocks that disagree refill the bucket in every round. */
  lemma {:induction false} AlternatingGrowsBudget(l: Limit, low: int, high: int, rounds: nat)
    requires l.Valid() && low < high
    ensures Budget(l, Alternating(low, high, rounds)) >= l.Full() + rounds
    ensures 0 <= Left(l, After(l, Alternating(low, high, rounds))) <= l.Full()
  {
    FullCoversOneToken(l);
    if rounds > 0 {
      AlternatingGrowsBudget(l, low, high, rounds - 1);
      RoundGrowsBudget(l, Alternating(low, high, rounds - 1), low, high);
      TokensStayInRange(l, Alternating(low, high, rounds));
    }
  }

  lemma ElapsedRefills(l: Limit, b: Bucket, now: int)
    requires l.Valid() && 0 <= b.tokens <= l.Full()
    ensures b.tokens <= TokensAt(l, Some(b), now) <= l.Full()
  {
    if b.refreshedAt <= now {
      ProductIsMonotone(0, now - b.refreshedAt, l.capacity);
    }
  }

  /** However wide the bound, readings that alternate between two values beat it in the end. */
  lemma AlternatingBeatsAnyBound(l: Limit, low: int, high: int, bound: nat)
    requires l.Valid() && low < high
    ensures var times := Alternating(low, high, bound + 1);
            Grants(l, times, 0, |times|) * l.Window() > bound
  {
    AlternatingGrowsBudget(l, low, high, bound + 1);
  }
}
