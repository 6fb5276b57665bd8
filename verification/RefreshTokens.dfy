/** The refresh-token store, twice: one map in memory, and Redis keys with a per-user index whose
    own time to live is renewed by every store.

    A jti is stored with its user and its expiry; times are seconds and are arguments, and Redis is
    up throughout. */
module RefreshTokens {
  import opened Wrappers

  datatype Token = Token(userId: int, expiresAt: int)

  type Tokens = map<string, Token>

  /** A set that has just come into being has no expiry yet. */
  datatype Index = Index(jtis: set<string>, expiresAt: Option<int>)

  /** The Redis side: token keys and index sets, both with expiry times. */
  datatype Keys = Keys(tokens: Tokens, index: map<int, Index>)

  datatype Op =
    | Store(jti: string, userId: int, ttl: int)
    | Consume(jti: string)
    | Revoke(jti: string)
    | RevokeUser(userId: int)

  /** Only consume answers; None is "no such token". */
  type Answer = Option<int>

  function Lifetime(ttl: int): int {
    if ttl < 1 then 1 else ttl
  }

  predicate Live(tokens: Tokens, jti: string, now: int) {
    jti in tokens && now < tokens[jti].expiresAt
  }

  function Unexpired(tokens: Tokens, now: int): Tokens {
    map jti | jti in tokens && now < tokens[jti].expiresAt :: tokens[jti]
  }

  // ---- In memory ----

  function MemoryStep(tokens: Tokens, op: Op, now: int): (Tokens, Answer) {
    match op
    case Store(jti, userId, ttl) => (tokens[jti := Token(userId, now + Lifetime(ttl))], None)
    case Consume(jti) =>
      var left := Unexpired(tokens, now);
      if jti in left then (left - {jti}, Some(left[jti].userId)) else (left, None)
    case Revoke(jti) => (tokens - {jti}, None)
    case RevokeUser(userId) =>
      (map jti | jti in tokens && tokens[jti].userId != userId :: tokens[jti], None)
  }

  // ---- Redis ----

  predicate IndexLives(k: Keys, userId: int, now: int) {
    userId in k.index && (k.index[userId].expiresAt.None? || now < k.index[userId].expiresAt.value)
  }

  function IndexOf(k: Keys, userId: int, now: int): set<string> {
    if IndexLives(k, userId, now) then k.index[userId].jtis else {}
  }

  function Setex(k: Keys, jti: string, userId: int, ttl: int, now: int): Keys {
    k.(tokens := k.tokens[jti := Token(userId, now + Lifetime(ttl))])
  }

  function Sadd(k: Keys, userId: int, jti: string, now: int): Keys {
    if IndexLives(k, userId, now)
    then k.(index := k.index[userId := k.index[userId].(jtis := k.index[userId].jtis + {jti})])
    else k.(index := k.index[userId := Index({jti}, None)])
  }

  /** EXPIRE finds nothing to do where there is no key. */
  function Expire(k: Keys, userId: int, ttl: int, now: int): Keys {
    if IndexLives(k, userId, now)
    then k.(index := k.index[userId := k.index[userId].(expiresAt := Some(now + Lifetime(ttl)))])
    else k
  }

  /** Redis keeps no empty sets. */
  function Srem(k: Keys, userId: int, jti: string): Keys {
    if userId !in k.index then k
    else
      var left := k.index[userId].jtis - {jti};
      if left == {} then k.(index := k.index - {userId})
      else k.(index := k.index[userId := k.index[userId].(jtis := left)])
  }

  function Del(k: Keys, jti: string): Keys {
    k.(tokens := k.tokens - {jti})
  }

  function DelIndex(k: Keys, userId: int): Keys {
    k.(index := k.index - {userId})
  }

  /** A whole operation: its commands one after another, at one moment. */
  function RedisStep(k: Keys, op: Op, now: int): (Keys, Answer) {
    match op
    case Store(jti, userId, ttl) =>
      (Expire(Sadd(Setex(k, jti, userId, ttl, now), userId, jti, now), userId, ttl, now), None)
    case Consume(jti) =>
      if Live(k.tokens, jti, now)
      then (Srem(Del(k, jti), k.tokens[jti].userId, jti), Some(k.tokens[jti].userId))
      else (k, None)
    case Revoke(jti) =>
      (Del(if Live(k.tokens, jti, now) then Srem(k, k.tokens[jti].userId, jti) else k, jti), None)
    case RevokeUser(userId) =>
      (DelIndex(k.(tokens := k.tokens - IndexOf(k, userId, now)), userId), None)
  }

  /** A call other than RevokeUser whose connection breaks after n of its commands. */
  function Halfway(k: Keys, op: Op, now: int, n: nat): Keys
    requires !op.RevokeUser?
  {
    match op
    case Store(jti, userId, ttl) =>
      if n == 0 then k
      else if n == 1 then Setex(k, jti, userId, ttl, now)
      else if n == 2 then Sadd(Setex(k, jti, userId, ttl, now), userId, jti, now)
      else RedisStep(k, op, now).0
    case Consume(jti) =>
      if n == 0 || !Live(k.tokens, jti, now) then k
      else if n == 1 then Del(k, jti)
      else RedisStep(k, op, now).0
    case Revoke(jti) =>
      if n <= 1 then k
      else if n == 2 && Live(k.tokens, jti, now) then Srem(k, k.tokens[jti].userId, jti)
      else RedisStep(k, op, now).0
  }

  /** And RevokeUser's: some of the listed tokens are gone, as many as were deleted in time, and the
      index goes last. */
  ghost predicate HalfwayRevoked(k: Keys, k': Keys, userId: int, now: int, n: nat) {
    var listed := IndexOf(k, userId, now);
    if n > |listed| + 1 then k' == RedisStep(k, RevokeUser(userId), now).0
    else exists gone ::
      && gone <= listed && |gone| == (if n == 0 then 0 else n - 1)
      && k' == k.(tokens := k.tokens - gone)
  }

  lemma BreaksOff(k: Keys, k': Keys, userId: int, now: int, n: nat, gone: set<string>)
    requires gone <= IndexOf(k, userId, now) && n <= |IndexOf(k, userId, now)| + 1
    requires |gone| == (if n == 0 then 0 else n - 1) && k' == k.(tokens := k.tokens - gone)
    ensures HalfwayRevoked(k, k', userId, now, n)
  {
  }

  /** Nothing a call can do, whole or cut short, brings a token to life but the one being stored. */
  ghost predicate GrantsNothing(k: Keys, k': Keys, stored: string) {
    forall jti :: jti in k'.tokens && jti != stored ==> jti in k.tokens && k'.tokens[jti] == k.tokens[jti]
  }

  // ---- Refinement ----

  /** The two stores hold the same live tokens. */
  ghost predicate SameTokens(k: Keys, tokens: Tokens, now: int) {
    forall jti :: (Live(k.tokens, jti, now) <==> Live(tokens, jti, now))
               && (Live(k.tokens, jti, now) ==> k.tokens[jti] == tokens[jti])
  }

  /** No index lists a live token of another user. */
  ghost predicate OwnersOnly(k: Keys, now: int) {
    forall userId, jti :: userId in k.index && jti in k.index[userId].jtis && Live(k.tokens, jti, now)
      ==> k.tokens[jti].userId == userId
  }

  /** Every live token is in its owner's index, and the index outlives it. */
  ghost predicate Indexed(k: Keys, now: int) {
    forall jti :: Live(k.tokens, jti, now) ==>
      var t := k.tokens[jti];
      && t.userId in k.index && jti in k.index[t.userId].jtis
      && (k.index[t.userId].expiresAt.None? || t.expiresAt <= k.index[t.userId].expiresAt.value)
  }

  /** What a caller can see to before storing: the new token expires no earlier than any live token
      of the same user.  A constant ttl and a clock that does not run back give this. */
  ghost predicate OutlivesEarlier(tokens: Tokens, op: Op, now: int) {
    op.Store? ==>
      forall jti :: Live(tokens, jti, now) && tokens[jti].userId == op.userId ==>
        tokens[jti].expiresAt <= now + Lifetime(op.ttl)
  }

  predicate FreshJti(used: set<string>, op: Op) {
    op.Store? ==> op.jti !in used
  }

  /** Neither store remembers anything but jtis that were stored at some time. */
  ghost predicate OnlyUsed(k: Keys, tokens: Tokens, used: set<string>) {
    && (forall jti :: jti in k.tokens || jti in tokens ==> jti in used)
    && (forall userId, jti :: userId in k.index && jti in k.index[userId].jtis ==> jti in used)
  }

  function UsedAfter(used: set<string>, op: Op): set<string> {
    if op.Store? then used + {op.jti} else used
  }

  ghost predicate Related(k: Keys, tokens: Tokens, used: set<string>, now: int) {
    SameTokens(k, tokens, now) && OwnersOnly(k, now) && Indexed(k, now) && OnlyUsed(k, tokens, used)
  }

  lemma TimePasses(k: Keys, tokens: Tokens, used: set<string>, now: int, later: int)
    requires Related(k, tokens, used, now) && now <= later
    ensures Related(k, tokens, used, later)
  {
    forall jti
      ensures (Live(k.tokens, jti, later) <==> Live(tokens, jti, later))
           && (Live(k.tokens, jti, later) ==> k.tokens[jti] == tokens[jti])
    {
      assert Live(k.tokens, jti, later) ==> Live(k.tokens, jti, now);
      assert Live(tokens, jti, later) ==> Live(tokens, jti, now);
    }
    forall jti | Live(k.tokens, jti, later)
      ensures Live(k.tokens, jti, now)
    {
    }
  }

  /** After a store, the index still covers every live token exactly when the new token outlives the
      user's others. */
  lemma StoreKeepsIndexIffOutlives(k: Keys, jti: string, userId: int, ttl: int, now: int)
    requires Indexed(k, now) && jti !in k.tokens
    ensures Indexed(RedisStep(k, Store(jti, userId, ttl), now).0, now)
            <==> OutlivesEarlier(k.tokens, Store(jti, userId, ttl), now)
  {
    var k' := RedisStep(k, Store(jti, userId, ttl), now).0;
    forall other | other != jti
      ensures Live(k'.tokens, other, now) <==> Live(k.tokens, other, now)
      ensures other in k.tokens ==> k'.tokens[other] == k.tokens[other]
    {
    }
    assert k'.index[userId].expiresAt == Some(now + Lifetime(ttl));
    if Indexed(k', now) {
      forall other | Live(k.tokens, other, now) && k.tokens[other].userId == userId
        ensures k.tokens[other].expiresAt <= now + Lifetime(ttl)
      {
        assert Live(k'.tokens, other, now);
      }
    }
  }

  lemma StoreRefines(k: Keys, tokens: Tokens, used: set<string>, op: Op, now: int)
    requires op.Store? && Related(k, tokens, used, now)
    requires FreshJti(used, op) && OutlivesEarlier(tokens, op, now)
    ensures Related(RedisStep(k, op, now).0, MemoryStep(tokens, op, now).0, UsedAfter(used, op), now)
  {
    StoreKeepsIndexIffOutlives(k, op.jti, op.userId, op.ttl, now);
    var k', tokens' := RedisStep(k, op, now).0, MemoryStep(tokens, op, now).0;
    forall jti
      ensures (Live(k'.tokens, jti, now) <==> Live(tokens', jti, now))
           && (Live(k'.tokens, jti, now) ==> k'.tokens[jti] == tokens'[jti])
    {
      assert jti != op.jti ==> (Live(k'.tokens, jti, now) <==> Live(k.tokens, jti, now));
    }
    forall userId, jti | userId in k'.index && jti in k'.index[userId].jtis && Live(k'.tokens, jti, now)
      ensures k'.tokens[jti].userId == userId
    {
      if jti != op.jti {
        assert Live(k.tokens, jti, now) && userId in k.index && jti in k.index[userId].jtis;
      }
    }
  }

  lemma ConsumeRefines(k: Keys, tokens: Tokens, used: set<string>, op: Op, now: int)
    requires op.Consume? && Related(k, tokens, used, now)
    ensures RedisStep(k, op, now).1 == MemoryStep(tokens, op, now).1
    ensures Related(RedisStep(k, op, now).0, MemoryStep(tokens, op, now).0, used, now)
  {
    var k', tokens' := RedisStep(k, op, now).0, MemoryStep(tokens, op, now).0;
    forall jti
      ensures Live(k'.tokens, jti, now) <==> Live(k.tokens, jti, now) && jti != op.jti
      ensures Live(tokens', jti, now) <==> Live(tokens, jti, now) && jti != op.jti
    {
    }
  }

  lemma RevokeRefines(k: Keys, tokens: Tokens, used: set<string>, op: Op, now: int)
    requires op.Revoke? && Related(k, tokens, used, now)
    ensures Related(RedisStep(k, op, now).0, MemoryStep(tokens, op, now).0, used, now)
  {
    var k', tokens' := RedisStep(k, op, now).0, MemoryStep(tokens, op, now).0;
    forall jti
      ensures Live(k'.tokens, jti, now) <==> Live(k.tokens, jti, now) && jti != op.jti
      ensures Live(tokens', jti, now) <==> Live(tokens, jti, now) && jti != op.jti
    {
    }
  }

  lemma RevokeUserRefines(k: Keys, tokens: Tokens, used: set<string>, op: Op, now: int)
    requires op.RevokeUser? && Related(k, tokens, used, now)
    ensures Related(RedisStep(k, op, now).0, MemoryStep(tokens, op, now).0, used, now)
  {
    var k', tokens' := RedisStep(k, op, now).0, MemoryStep(tokens, op, now).0;
    forall jti
      ensures Live(k'.tokens, jti, now) <==> Live(k.tokens, jti, now) && k.tokens[jti].userId != op.userId
      ensures Live(tokens', jti, now) <==> Live(tokens, jti, now) && tokens[jti].userId != op.userId
    {
      assert Live(k.tokens, jti, now) ==>
               (jti in IndexOf(k, op.userId, now) <==> k.tokens[jti].userId == op.userId);
    }
  }

  lemma StepRefines(k: Keys, tokens: Tokens, used: set<string>, op: Op, now: int)
    requires Related(k, tokens, used, now)
    requires FreshJti(used, op) && OutlivesEarlier(tokens, op, now)
    ensures RedisStep(k, op, now).1 == MemoryStep(tokens, op, now).1
    ensures Related(RedisStep(k, op, now).0, MemoryStep(tokens, op, now).0, UsedAfter(used, op), now)
  {
    match op
    case Store(_, _, _) => StoreRefines(k, tokens, used, op, now);
    case Consume(_) => ConsumeRefines(k, tokens, used, op, now);
    case Revoke(_) => RevokeRefines(k, tokens, used, op, now);
    case RevokeUser(_) => RevokeUserRefines(k, tokens, used, op, now);
  }

  /** With every live token on its owner's index, a revocation ends the user's tokens and no other. */
  lemma RevokedAreTheUsers(k: Keys, userId: int, now: int)
    requires Indexed(k, now) && OwnersOnly(k, now)
    ensures var k' := RedisStep(k, RevokeUser(userId), now).0;
            forall jti, t :: now <= t ==>
              (Live(k'.tokens, jti, t) <==> Live(k.tokens, jti, t) && k.tokens[jti].userId != userId)
  {
    forall jti, t | now <= t && Live(k.tokens, jti, t)
      ensures jti in IndexOf(k, userId, now) <==> k.tokens[jti].userId == userId
    {
      assert Live(k.tokens, jti, now);
    }
  }

  // ---- Whole sequences ----

  datatype Timed = Timed(op: Op, now: int)

  function MemoryRun(tokens: Tokens, ops: seq<Timed>): (answers: seq<Answer>)
    ensures |answers| == |ops|
    decreases |ops|
  {
    if ops == [] then []
    else
      var (next, answer) := MemoryStep(tokens, ops[0].op, ops[0].now);
      [answer] + MemoryRun(next, ops[1..])
  }

  function RedisRun(k: Keys, ops: seq<Timed>): (answers: seq<Answer>)
    ensures |answers| == |ops|
    decreases |ops|
  {
    if ops == [] then []
    else
      var (next, answer) := RedisStep(k, ops[0].op, ops[0].now);
      [answer] + RedisRun(next, ops[1..])
  }

  /** One clock, one ttl, and a new jti for every store. */
  predicate OrdinaryUse(ops: seq<Timed>, ttl: int) {
    && (forall i, j :: 0 <= i < j < |ops| ==> ops[i].now <= ops[j].now)
    && (forall i :: 0 <= i < |ops| && ops[i].op.Store? ==> ops[i].op.ttl == ttl)
    && (forall i, j :: 0 <= i < j < |ops| && ops[i].op.Store? && ops[j].op.Store? ==> ops[i].op.jti != ops[j].op.jti)
  }

  lemma {:induction false} RunRefines(k: Keys, tokens: Tokens, used: set<string>, now: int, ops: seq<Timed>, ttl: int)
    requires Related(k, tokens, used, now) && OrdinaryUse(ops, ttl)
    requires forall i :: 0 <= i < |ops| ==> now <= ops[i].now && FreshJti(used, ops[i].op)
    requires forall jti :: jti in tokens ==> tokens[jti].expiresAt <= now + Lifetime(ttl)
    ensures RedisRun(k, ops) == MemoryRun(tokens, ops)
    decreases |ops|
  {
    if ops != [] {
      var op, at := ops[0].op, ops[0].now;
      TimePasses(k, tokens, used, now, at);
      StepRefines(k, tokens, used, op, at);
      RunRefines(RedisStep(k, op, at).0, MemoryStep(tokens, op, at).0, UsedAfter(used, op), at, ops[1..], ttl);
    }
  }

  /** Started empty and used with one ttl, one clock and fresh jtis, the Redis store answers every
      call as the in-memory store does. */
  lemma RedisStoreRefinesMemoryStore(ops: seq<Timed>, ttl: int)
    requires OrdinaryUse(ops, ttl)
    ensures RedisRun(Keys(map[], map[]), ops) == MemoryRun(map[], ops)
  {
    if ops != [] {
      RunRefines(Keys(map[], map[]), map[], {}, ops[0].now, ops, ttl);
    }
  }

  /** A shorter ttl after a longer one lets the index lapse first: revoking the user then misses the
      earlier token, which Redis still honours and the in-memory store does not. */
  lemma ShorterTtlHidesTokenFromRevocation()
    ensures var ops := [Timed(Store("a", 1, 100), 0), Timed(Store("b", 1, 10), 0),
                        Timed(RevokeUser(1), 50), Timed(Consume("a"), 50)];
            RedisRun(Keys(map[], map[]), ops)[3] == Some(1) && MemoryRun(map[], ops)[3] == None
  {
    var ops := [Timed(Store("a", 1, 100), 0), Timed(Store("b", 1, 10), 0),
                Timed(RevokeUser(1), 50), Timed(Consume("a"), 50)];
    var k1 := RedisStep(Keys(map[], map[]), ops[0].op, 0).0;
    var k2 := RedisStep(k1, ops[1].op, 0).0;
    var k3 := RedisStep(k2, ops[2].op, 50).0;
    var m1 := MemoryStep(map[], ops[0].op, 0).0;
    var m2 := MemoryStep(m1, ops[1].op, 0).0;
    var m3 := MemoryStep(m2, ops[2].op, 50).0;
    assert IndexOf(k2, 1, 50) == {} && k3.tokens == k2.tokens && k2.tokens["a"] == Token(1, 100);
    assert "a" !in m3;
    var later := [ops[1..], ops[1..][1..], ops[1..][1..][1..]];
    assert later[0][0] == ops[1] && later[1][0] == ops[2] && later[2][0] == ops[3];
    assert RedisRun(k3, later[2])[0] == Some(1) && MemoryRun(m3, later[2])[0] == None;
    assert RedisRun(k2, later[1])[1] == RedisRun(k3, later[2])[0];
    assert MemoryRun(m2, later[1])[1] == MemoryRun(m3, later[2])[0];
    assert RedisRun(k1, later[0])[2] == RedisRun(k2, later[1])[1];
    assert MemoryRun(m1, later[0])[2] == MemoryRun(m2, later[1])[1];
  }

  // ---- The stores as objects ----

  datatype StoreError = StoreUnavailable

  class InMemoryRefreshTokenStore {
    var tokens: Tokens

    constructor ()
      ensures tokens == map[]
    {
      tokens := map[];
    }

    /** The token is live for its lifetime and belongs to the user; no other changes. */
    method StoreToken(jti: string, userId: int, ttl: int, now: int)
      modifies this
      ensures jti in tokens && tokens[jti].userId == userId
      ensures forall t :: Live(tokens, jti, t) <==> t < now + (if ttl < 1 then 1 else ttl)
      ensures forall other :: other != jti ==>
                (other in tokens <==> other in old(tokens)) && (other in tokens ==> tokens[other] == old(tokens)[other])
      ensures tokens == MemoryStep(old(tokens), Store(jti, userId, ttl), now).0
    {
      tokens := tokens[jti := Token(userId, now + Lifetime(ttl))];
    }

    /** A live token yields its owner, and is never live again; every other one is live for as long as
        before. */
    method ConsumeToken(jti: string, now: int) returns (userId: Option<int>)
      modifies this
      ensures userId.Some? <==> Live(old(tokens), jti, now)
      ensures userId.Some? ==> userId.value == old(tokens)[jti].userId
      ensures forall other, t :: now <= t ==> (Live(tokens, other, t) <==> other != jti && Live(old(tokens), other, t))
      ensures forall other :: other in tokens ==> other in old(tokens) && tokens[other] == old(tokens)[other]
      ensures (tokens, userId) == MemoryStep(old(tokens), Consume(jti), now)
    {
      tokens := Unexpired(tokens, now);
      if jti !in tokens {
        return None;
      }
      userId := Some(tokens[jti].userId);
      tokens := tokens - {jti};
    }

    method RevokeToken(jti: string, now: int)
      modifies this
      ensures forall other, t :: Live(tokens, other, t) <==> other != jti && Live(old(tokens), other, t)
      ensures tokens == MemoryStep(old(tokens), Revoke(jti), now).0
    {
      tokens := tokens - {jti};
    }

    /** The live tokens left are those of everyone else, with their owners. */
    method RevokeTokensOf(userId: int, now: int)
      modifies this
      ensures forall jti, t :: Live(tokens, jti, t) <==> Live(old(tokens), jti, t) && old(tokens)[jti].userId != userId
      ensures forall jti :: jti in tokens ==> jti in old(tokens) && tokens[jti] == old(tokens)[jti]
      ensures tokens == MemoryStep(old(tokens), RevokeUser(userId), now).0
    {
      tokens := map jti | jti in tokens && tokens[jti].userId != userId :: tokens[jti];
    }
  }

  /** `lost` is None when every command of a call is answered; Some(n) when the connection breaks with
      n of them carried out. */
  class RedisRefreshTokenStore {
    const available: bool
    var tokens: Tokens
    var index: map<int, Index>

    constructor (available: bool)
      ensures this.available == available && State() == Keys(map[], map[])
    {
      this.available, tokens, index := available, map[], map[];
    }

    function State(): Keys
      reads this
    {
      Keys(tokens, index)
    }

    method Write(k: Keys)
      modifies this
      ensures State() == k
    {
      tokens, index := k.tokens, k.index;
    }

    method StoreToken(jti: string, userId: int, ttl: int, now: int, lost: Option<nat>)
      returns (r: Result<(), StoreError>)
      modifies this
      ensures r.Ok? <==> available && lost.None?
      ensures r.Ok? ==> State() == RedisStep(old(State()), Store(jti, userId, ttl), now).0
      ensures r.Err? ==> State() == if available then Halfway(old(State()), Store(jti, userId, ttl), now, lost.value)
                                    else old(State())
      ensures GrantsNothing(old(State()), State(), jti)
    {
      if !available || lost == Some(0) {
        return Err(StoreUnavailable);
      }
      Write(Setex(State(), jti, userId, ttl, now));
      if lost == Some(1) {
        return Err(StoreUnavailable);
      }
      Write(Sadd(State(), userId, jti, now));
      if lost == Some(2) {
        return Err(StoreUnavailable);
      }
      Write(Expire(State(), userId, ttl, now));
      return if lost.None? then Ok(()) else Err(StoreUnavailable);
    }

    /** Once the get-and-delete is done the token is spent, answered or not. */
    method ConsumeToken(jti: string, now: int, lost: Option<nat>) returns (r: Result<Option<int>, StoreError>)
      modifies this
      ensures r.Ok? <==> available && (lost.None? || (lost.value >= 2 && !Live(old(tokens), jti, now)))
      ensures r.Ok? ==> (State(), r.value) == RedisStep(old(State()), Consume(jti), now)
      ensures r.Err? ==> State() == if available then Halfway(old(State()), Consume(jti), now, lost.value)
                                    else old(State())
      ensures available && lost != Some(0) ==> !Live(tokens, jti, now)
      ensures GrantsNothing(old(State()), State(), jti) && (jti in tokens ==> jti in old(tokens))
    {
      if !available || lost == Some(0) {
        return Err(StoreUnavailable);
      }
      var found := if Live(tokens, jti, now) then Some(tokens[jti].userId) else None;
      if found.Some? {
        Write(Del(State(), jti));
      }
      if lost == Some(1) {
        return Err(StoreUnavailable);
      }
      if found.None? {
        return Ok(None);
      }
      Write(Srem(State(), found.value, jti));
      return if lost.None? then Ok(found) else Err(StoreUnavailable);
    }

    method RevokeToken(jti: string, now: int, lost: Option<nat>) returns (r: Result<(), StoreError>)
      modifies this
      ensures r.Ok? <==> available && lost.None?
      ensures r.Ok? ==> State() == RedisStep(old(State()), Revoke(jti), now).0 && !Live(tokens, jti, now)
      ensures r.Err? ==> State() == if available then Halfway(old(State()), Revoke(jti), now, lost.value)
                                    else old(State())
      ensures GrantsNothing(old(State()), State(), jti) && (jti in tokens ==> jti in old(tokens))
    {
      if !available || lost == Some(0) {
        return Err(StoreUnavailable);
      }
      var owner := if Live(tokens, jti, now) then Some(tokens[jti].userId) else None;
      if lost == Some(1) {
        return Err(StoreUnavailable);
      }
      if owner.Some? {
        Write(Srem(State(), owner.value, jti));
        if lost == Some(2) {
          return Err(StoreUnavailable);
        }
      }
      Write(Del(State(), jti));
      return if lost.None? then Ok(()) else Err(StoreUnavailable);
    }

    method RevokeTokensOf(userId: int, now: int, lost: Option<nat>) returns (r: Result<(), StoreError>)
      modifies this
      ensures r.Ok? <==> available && lost.None?
      ensures r.Ok? ==> State() == RedisStep(old(State()), RevokeUser(userId), now).0
      ensures r.Err? && available ==> HalfwayRevoked(old(State()), State(), userId, now, lost.value)
      ensures !available ==> State() == old(State())
      ensures GrantsNothing(old(State()), State(), "")  && ("" in tokens ==> "" in old(tokens))
    {
      if !available {
        return Err(StoreUnavailable);
      }
      var listed := IndexOf(State(), userId, now);
      ghost var before := State();
      if lost == Some(0) {
        assert before == before.(tokens := before.tokens - {});
        BreaksOff(before, before, userId, now, 0, {});
        return Err(StoreUnavailable);
      }
      var left := DeleteTokens(listed, if lost.None? then |listed| else lost.value - 1);
      if lost.Some? && lost.value <= |listed| + 1 {
        BreaksOff(before, State(), userId, now, lost.value, listed - left);
        return Err(StoreUnavailable);
      }
      assert listed - left == listed;
      index := index - {userId};
      return if lost.None? then Ok(()) else Err(StoreUnavailable);
    }

    /** The deletion loop, which stops after `most` deletions. */
    method DeleteTokens(listed: set<string>, most: nat) returns (left: set<string>)
      modifies this`tokens
      ensures left <= listed && |listed - left| == (if most < |listed| then most else |listed|)
      ensures most >= |listed| ==> left == {}
      ensures tokens == old(tokens) - (listed - left)
    {
      left := listed;
      ghost var gone := {};
      while left != {} && most > |listed| - |left|
        invariant left <= listed && gone == listed - left && |gone| == |listed| - |left|
        invariant tokens == old(tokens) - gone
        invariant |gone| <= most
        decreases |left|
      {
        assert (forall jti :: jti !in left) ==> left == {};
        var jti :| jti in left;
        tokens := tokens - {jti};
        left := left - {jti};
        gone := gone + {jti};
      }
    }
  }
}
