/** Login, refresh, logout and password change over a refresh-token store.

    A refresh token is reduced to its verified claims, so a forged or expired one is None; looking
    up the account and checking a password are inputs.  Each call draws a fresh jti in case it
    issues a token. */
module AuthService {
  import opened Wrappers
  import opened RefreshTokens

  datatype Claims = Claims(userId: int, jti: string)

  datatype Action =
    | Login(account: Option<int>, verified: bool)
    | Refresh(claims: Option<Claims>, enabled: bool)
    | Logout(claims: Option<Claims>)
    | ChangePassword(userId: int, permitted: bool, updated: bool)

  /** A call at a time, with the jti it will use if it issues a token. */
  datatype Call = Call(action: Action, now: int, jti: string)

  datatype Reply = Denied | Issued(userId: int, jti: string) | Done

  /** Either store behind the one interface. */
  datatype Backend = InMemory(tokens: Tokens) | InRedis(keys: Keys)

  function StoreStep(b: Backend, op: Op, now: int): (Backend, Answer) {
    match b
    case InMemory(tokens) => var (next, answer) := MemoryStep(tokens, op, now); (InMemory(next), answer)
    case InRedis(keys) => var (next, answer) := RedisStep(keys, op, now); (InRedis(next), answer)
  }

  function Issue(b: Backend, userId: int, c: Call, ttl: int): (Backend, Reply) {
    (StoreStep(b, Store(c.jti, userId, ttl), c.now).0, Issued(userId, c.jti))
  }

  function Serve(b: Backend, c: Call, ttl: int): (Backend, Reply) {
    match c.action
    case Login(account, verified) =>
      if account.Some? && verified then Issue(b, account.value, c, ttl) else (b, Denied)
    case Refresh(claims, enabled) =>
      if claims.None? then (b, Denied)
      else
        var (rest, owner) := StoreStep(b, Consume(claims.value.jti), c.now);
        if owner != Some(claims.value.userId) || !enabled then (rest, Denied)
        else Issue(rest, claims.value.userId, c, ttl)
    case Logout(claims) =>
      if claims.None? then (b, Denied) else (StoreStep(b, Revoke(claims.value.jti), c.now).0, Done)
    case ChangePassword(userId, permitted, updated) =>
      if !permitted then (b, Denied)
      else (StoreStep(b, RevokeUser(userId), c.now).0, if updated then Done else Denied)
  }

  /** The store after the first n calls, and the reply to call n. */
  function BackendAt(start: Backend, calls: seq<Call>, ttl: int, n: nat): Backend
    requires n <= |calls|
  {
    if n == 0 then start else Serve(BackendAt(start, calls, ttl, n - 1), calls[n - 1], ttl).0
  }

  function ReplyTo(start: Backend, calls: seq<Call>, ttl: int, n: nat): Reply
    requires n < |calls|
  {
    Serve(BackendAt(start, calls, ttl, n), calls[n], ttl).1
  }

  const EmptyMemory := InMemory(map[])
  const EmptyRedis := InRedis(Keys(map[], map[]))

  predicate OrdinaryCalls(calls: seq<Call>) {
    && (forall i, j :: 0 <= i < j < |calls| ==> calls[i].now <= calls[j].now)
    && (forall i, j :: 0 <= i < j < |calls| ==> calls[i].jti != calls[j].jti)
  }

  /** Refresh accepted a token with these claims. */
  predicate Accepts(c: Call, r: Reply, claims: Claims) {
    c.action.Refresh? && c.action.claims == Some(claims) && r.Issued?
  }

  // ---- The Redis store serves as the in-memory store does ----

  function DrawnBefore(calls: seq<Call>, n: nat): set<string>
    requires n <= |calls|
  {
    set i | 0 <= i < n :: calls[i].jti
  }

  /** Related stores, none of whose tokens outlives one stored now. */
  ghost predicate Agree(redis: Backend, memory: Backend, used: set<string>, ttl: int, now: int) {
    && redis.InRedis? && memory.InMemory?
    && Related(redis.keys, memory.tokens, used, now)
    && forall jti :: jti in memory.tokens ==> memory.tokens[jti].expiresAt <= now + Lifetime(ttl)
  }

  lemma AgreeWithMoreUsed(redis: Backend, memory: Backend, used: set<string>, jti: string, ttl: int, now: int)
    requires Agree(redis, memory, used, ttl, now)
    ensures Agree(redis, memory, used + {jti}, ttl, now)
  {
  }

  lemma OpAgrees(redis: Backend, memory: Backend, used: set<string>, ttl: int, op: Op, now: int)
    requires Agree(redis, memory, used, ttl, now)
    requires op.Store? ==> op.jti !in used && op.ttl == ttl
    ensures StoreStep(redis, op, now).1 == StoreStep(memory, op, now).1
    ensures Agree(StoreStep(redis, op, now).0, StoreStep(memory, op, now).0, UsedAfter(used, op), ttl, now)
  {
    StepRefines(redis.keys, memory.tokens, used, op, now);
  }

  lemma CallAgrees(redis: Backend, memory: Backend, used: set<string>, c: Call, ttl: int)
    requires Agree(redis, memory, used, ttl, c.now) && c.jti !in used
    ensures Serve(redis, c, ttl).1 == Serve(memory, c, ttl).1
    ensures Agree(Serve(redis, c, ttl).0, Serve(memory, c, ttl).0, used + {c.jti}, ttl, c.now)
  {
    AgreeWithMoreUsed(redis, memory, used, c.jti, ttl, c.now);
    match c.action
    case Login(account, verified) =>
      if account.Some? && verified {
        OpAgrees(redis, memory, used, ttl, Store(c.jti, account.value, ttl), c.now);
      }
    case Refresh(claims, enabled) =>
      if claims.Some? {
        var op := Consume(claims.value.jti);
        OpAgrees(redis, memory, used, ttl, op, c.now);
        var redis', memory' := StoreStep(redis, op, c.now).0, StoreStep(memory, op, c.now).0;
        AgreeWithMoreUsed(redis', memory', used, c.jti, ttl, c.now);
        OpAgrees(redis', memory', used, ttl, Store(c.jti, claims.value.userId, ttl), c.now);
      }
    case Logout(claims) =>
      if claims.Some? {
        OpAgrees(redis, memory, used + {c.jti}, ttl, Revoke(claims.value.jti), c.now);
      }
    case ChangePassword(userId, permitted, _) =>
      if permitted {
        OpAgrees(redis, memory, used + {c.jti}, ttl, RevokeUser(userId), c.now);
      }
  }

  lemma {:induction false} BackendsAgree(calls: seq<Call>, ttl: int, n: nat)
    requires n < |calls| && OrdinaryCalls(calls)
    ensures Agree(BackendAt(EmptyRedis, calls, ttl, n), BackendAt(EmptyMemory, calls, ttl, n),
                  DrawnBefore(calls, n), ttl, calls[n].now)
  {
    if n > 0 {
      BackendsAgree(calls, ttl, n - 1);
      var c := calls[n - 1];
      var redis, memory := BackendAt(EmptyRedis, calls, ttl, n - 1), BackendAt(EmptyMemory, calls, ttl, n - 1);
      CallAgrees(redis, memory, DrawnBefore(calls, n - 1), c, ttl);
      assert DrawnBefore(calls, n) == DrawnBefore(calls, n - 1) + {c.jti};
      TimePasses(Serve(redis, c, ttl).0.keys, Serve(memory, c, ttl).0.tokens,
                 DrawnBefore(calls, n), c.now, calls[n].now);
    }
  }

  /** Every reply of the service is the same over either store. */
  lemma ServiceOverRedisAgrees(calls: seq<Call>, ttl: int, n: nat)
    requires n < |calls| && OrdinaryCalls(calls)
    ensures ReplyTo(EmptyRedis, calls, ttl, n) == ReplyTo(EmptyMemory, calls, ttl, n)
  {
    BackendsAgree(calls, ttl, n);
    CallAgrees(BackendAt(EmptyRedis, calls, ttl, n), BackendAt(EmptyMemory, calls, ttl, n),
               DrawnBefore(calls, n), calls[n], ttl);
  }

  // ---- Rotation ----

  function TokensAt(calls: seq<Call>, ttl: int, n: nat): Tokens
    requires n <= |calls|
  {
    var b := BackendAt(EmptyMemory, calls, ttl, n);
    if b.InMemory? then b.tokens else map[]
  }

  /** What one call can do to the tokens. */
  lemma ServeFrame(b: Backend, c: Call, ttl: int)
    requires b.InMemory?
    ensures var (b', reply) := Serve(b, c, ttl);
            && b'.InMemory?
            && forall jti :: jti in b'.tokens ==>
                 if jti == c.jti && reply.Issued? then
                   reply.jti == jti && b'.tokens[jti] == Token(reply.userId, c.now + Lifetime(ttl))
                 else jti in b.tokens && b'.tokens[jti] == b.tokens[jti]
  {
  }

  lemma {:induction false} StaysInMemory(calls: seq<Call>, ttl: int, n: nat)
    requires n <= |calls|
    ensures BackendAt(EmptyMemory, calls, ttl, n).InMemory?
  {
    if n > 0 {
      StaysInMemory(calls, ttl, n - 1);
      ServeFrame(BackendAt(EmptyMemory, calls, ttl, n - 1), calls[n - 1], ttl);
    }
  }

  lemma TokensStep(calls: seq<Call>, ttl: int, n: nat, jti: string)
    requires n < |calls| && jti in TokensAt(calls, ttl, n + 1)
    ensures var before, after := TokensAt(calls, ttl, n), TokensAt(calls, ttl, n + 1);
            var reply := ReplyTo(EmptyMemory, calls, ttl, n);
            if jti == calls[n].jti && reply.Issued? then
              reply.jti == jti && after[jti] == Token(reply.userId, calls[n].now + Lifetime(ttl))
            else jti in before && after[jti] == before[jti]
  {
    StaysInMemory(calls, ttl, n);
    StaysInMemory(calls, ttl, n + 1);
    ServeFrame(BackendAt(EmptyMemory, calls, ttl, n), calls[n], ttl);
  }

  /** A token the store does not have, and will not be given again, stays absent. */
  lemma {:induction false} GoneStaysGone(calls: seq<Call>, ttl: int, jti: string, n: nat, m: nat)
    requires n <= m <= |calls| && jti !in TokensAt(calls, ttl, n)
    requires forall k :: n <= k < m ==> calls[k].jti != jti
    ensures jti !in TokensAt(calls, ttl, m)
    decreases m
  {
    if n < m {
      GoneStaysGone(calls, ttl, jti, n, m - 1);
      if jti in TokensAt(calls, ttl, m) {
        TokensStep(calls, ttl, m - 1, jti);
      }
    }
  }

  /** Whatever the store holds was issued, to that user, by an earlier call. */
  lemma {:induction false} HeldWasIssued(calls: seq<Call>, ttl: int, jti: string, n: nat) returns (i: nat)
    requires n <= |calls| && jti in TokensAt(calls, ttl, n)
    ensures i < n && calls[i].jti == jti
    ensures ReplyTo(EmptyMemory, calls, ttl, i) == Issued(TokensAt(calls, ttl, n)[jti].userId, jti)
    ensures TokensAt(calls, ttl, n)[jti].expiresAt == calls[i].now + Lifetime(ttl)
    decreases n
  {
    TokensStep(calls, ttl, n - 1, jti);
    if jti == calls[n - 1].jti && ReplyTo(EmptyMemory, calls, ttl, n - 1).Issued? {
      i := n - 1;
    } else {
      i := HeldWasIssued(calls, ttl, jti, n - 1);
    }
  }

  lemma AcceptedWasHeld(calls: seq<Call>, ttl: int, claims: Claims, n: nat)
    requires n < |calls| && Accepts(calls[n], ReplyTo(EmptyMemory, calls, ttl, n), claims)
    ensures Live(TokensAt(calls, ttl, n), claims.jti, calls[n].now)
    ensures TokensAt(calls, ttl, n)[claims.jti].userId == claims.userId
    ensures claims.jti != calls[n].jti ==> claims.jti !in TokensAt(calls, ttl, n + 1)
  {
    StaysInMemory(calls, ttl, n);
  }

  /** A refresh is accepted only for a token an earlier call issued to that very user, and only
      within the token's lifetime. */
  lemma AcceptedTokenIsGenuine(calls: seq<Call>, ttl: int, claims: Claims, n: nat)
    requires n < |calls| && OrdinaryCalls(calls)
    requires Accepts(calls[n], ReplyTo(EmptyRedis, calls, ttl, n), claims)
    ensures exists i :: 0 <= i < n
              && ReplyTo(EmptyRedis, calls, ttl, i) == Issued(claims.userId, claims.jti)
              && calls[n].now < calls[i].now + Lifetime(ttl)
  {
    ServiceOverRedisAgrees(calls, ttl, n);
    AcceptedWasHeld(calls, ttl, claims, n);
    var i := HeldWasIssued(calls, ttl, claims.jti, n);
    ServiceOverRedisAgrees(calls, ttl, i);
  }

  /** Refresh accepts a token at most once. */
  lemma TokenIsAcceptedAtMostOnce(calls: seq<Call>, ttl: int, first: Claims, second: Claims, i: nat, j: nat)
    requires i < j < |calls| && OrdinaryCalls(calls)
    requires Accepts(calls[i], ReplyTo(EmptyRedis, calls, ttl, i), first)
    requires Accepts(calls[j], ReplyTo(EmptyRedis, calls, ttl, j), second)
    ensures first.jti != second.jti
  {
    ServiceOverRedisAgrees(calls, ttl, i);
    ServiceOverRedisAgrees(calls, ttl, j);
    TokenIsTakenOnce(calls, ttl, first, second, i, j);
  }

  lemma TokenIsTakenOnce(calls: seq<Call>, ttl: int, first: Claims, second: Claims, i: nat, j: nat)
    requires i < j < |calls| && OrdinaryCalls(calls)
    requires Accepts(calls[i], ReplyTo(EmptyMemory, calls, ttl, i), first)
    requires Accepts(calls[j], ReplyTo(EmptyMemory, calls, ttl, j), second)
    ensures first.jti != second.jti
  {
    AcceptedWasHeld(calls, ttl, first, i);
    AcceptedWasHeld(calls, ttl, second, j);
    var drawn := HeldWasIssued(calls, ttl, first.jti, i);
    GoneStaysGone(calls, ttl, first.jti, i + 1, j);
  }

  /** After a successful password change no token issued to the user before it is accepted. */
  lemma PasswordChangeEndsEarlierTokens(calls: seq<Call>, ttl: int, claims: Claims, userId: int, i: nat, j: nat, k: nat)
    requires i < j < k < |calls| && OrdinaryCalls(calls)
    requires ReplyTo(EmptyRedis, calls, ttl, i) == Issued(userId, claims.jti)
    requires calls[j].action.ChangePassword? && calls[j].action.userId == userId
    requires ReplyTo(EmptyRedis, calls, ttl, j) == Done
    ensures !Accepts(calls[k], ReplyTo(EmptyRedis, calls, ttl, k), claims)
  {
    ServiceOverRedisAgrees(calls, ttl, i);
    ServiceOverRedisAgrees(calls, ttl, j);
    ServiceOverRedisAgrees(calls, ttl, k);
    var jti := claims.jti;
    assert calls[i].jti == jti;
    if jti in TokensAt(calls, ttl, j) {
      var d := HeldWasIssued(calls, ttl, jti, j);
      assert d == i;
    }
    StaysInMemory(calls, ttl, j);
    assert jti !in TokensAt(calls, ttl, j + 1);
    GoneStaysGone(calls, ttl, jti, j + 1, k);
    if Accepts(calls[k], ReplyTo(EmptyRedis, calls, ttl, k), claims) {
      AcceptedWasHeld(calls, ttl, claims, k);
    }
  }

  // ---- The service as an object ----

  /** The service over a Redis store.  With the store up and no connection lost, each method is one
      call of Serve; otherwise it refuses, and no token has come to life that anyone was given.
      `lost` counts the commands of the call's store operation that were carried out, `lostStore`
      those of the store that follows a refresh. */
  class AuthService {
    const store: RedisRefreshTokenStore
    const ttl: int

    constructor (store: RedisRefreshTokenStore, ttl: int)
      ensures this.store == store && this.ttl == ttl
    {
      this.store, this.ttl := store, ttl;
    }

    ghost predicate Served(before: Keys, action: Action, now: int, jti: string, reply: Reply)
      reads this, store
    {
      (InRedis(store.State()), reply) == Serve(InRedis(before), Call(action, now, jti), ttl)
    }

    /** The refusal of a call that could not reach its store throughout. */
    ghost predicate BrokenOff(before: Keys, jti: string, reply: Reply)
      reads this, store
    {
      reply == Denied && GrantsNothing(before, store.State(), jti)
    }

    /** Beside what was there, this token is live, for the user and the lifetime. */
    ghost predicate HasIssued(before: Tokens, userId: int, now: int, jti: string)
      reads this, store
    {
      && jti in store.tokens && store.tokens[jti].userId == userId
      && store.tokens[jti].expiresAt == now + (if ttl < 1 then 1 else ttl)
      && forall other :: other != jti ==>
           (other in store.tokens <==> other in before)
           && (other in before ==> store.tokens[other] == before[other])
    }

    method IssueTokenPair(userId: int, now: int, jti: string, lost: Option<nat>) returns (reply: Reply)
      modifies store
      ensures reply == if store.available && lost.None? then Issued(userId, jti) else Denied
      ensures reply.Issued? ==> HasIssued(old(store.tokens), userId, now, jti)
      ensures reply.Issued? ==> store.State() == RedisStep(old(store.State()), Store(jti, userId, ttl), now).0
      ensures GrantsNothing(old(store.State()), store.State(), jti)
    {
      var stored := store.StoreToken(jti, userId, ttl, now, lost);
      reply := if stored.Ok? then Issued(userId, jti) else Denied;
    }

    /** A token is issued exactly for an account that exists and a password that was verified. */
    method HandleLogin(account: Option<int>, verified: bool, now: int, jti: string, lost: Option<nat>)
      returns (reply: Reply)
      modifies store
      ensures reply.Issued? <==> account.Some? && verified && store.available && lost.None?
      ensures reply.Issued? ==> reply == Issued(account.value, jti)
                                && HasIssued(old(store.tokens), account.value, now, jti)
      ensures !reply.Issued? ==> reply == Denied
      ensures account.None? || !verified ==> store.State() == old(store.State())
      ensures Served(old(store.State()), Login(account, verified), now, jti, reply)
              || ((!store.available || lost.Some?) && BrokenOff(old(store.State()), jti, reply))
    {
      if account.None? || !verified {
        return Denied;
      }
      reply := IssueTokenPair(account.value, now, jti, lost);
    }

    /** A new token is issued exactly for one that was live, belonged to the user it claims, and whose
        account is enabled.  Whatever breaks off after the get-and-delete, the old token is spent. */
    method HandleRefresh(claims: Option<Claims>, enabled: bool, now: int, jti: string,
                         lost: Option<nat>, lostStore: Option<nat>)
      returns (reply: Reply)
      modifies store
      ensures store.available && lost.None? && lostStore.None? ==>
                (reply.Issued? <==>
                   && claims.Some? && enabled
                   && claims.value.jti in old(store.tokens)
                   && now < old(store.tokens)[claims.value.jti].expiresAt
                   && old(store.tokens)[claims.value.jti].userId == claims.value.userId)
      ensures reply.Issued? ==>
                && claims.Some? && enabled && reply == Issued(claims.value.userId, jti)
                && HasIssued(old(store.tokens) - {claims.value.jti}, claims.value.userId, now, jti)
      ensures !reply.Issued? ==> reply == Denied
      ensures claims.None? ==> store.State() == old(store.State())
      ensures Served(old(store.State()), Refresh(claims, enabled), now, jti, reply)
              || ((!store.available || lost.Some? || lostStore.Some?) && BrokenOff(old(store.State()), jti, reply))
      ensures claims.Some? && claims.value.jti != jti && store.available && lost != Some(0) ==>
                !Live(store.tokens, claims.value.jti, now)
    {
      if claims.None? {
        return Denied;
      }
      var owner := store.ConsumeToken(claims.value.jti, now, lost);
      if owner.Err? || owner.value != Some(claims.value.userId) {
        return Denied;
      }
      if !enabled {
        return Denied;
      }
      reply := IssueTokenPair(claims.value.userId, now, jti, lostStore);
    }

    /** The token itself goes, and no other. */
    method HandleLogout(claims: Option<Claims>, now: int, jti: string, lost: Option<nat>) returns (reply: Reply)
      modifies store
      ensures reply == if claims.Some? && store.available && lost.None? then Done else Denied
      ensures reply == Done ==> store.tokens == old(store.tokens) - {claims.value.jti}
      ensures claims.None? ==> store.State() == old(store.State())
      ensures Served(old(store.State()), Logout(claims), now, jti, reply)
              || ((!store.available || lost.Some?) && BrokenOff(old(store.State()), jti, reply))
    {
      if claims.None? {
        return Denied;
      }
      var revoked := store.RevokeToken(claims.value.jti, now, lost);
      reply := if revoked.Ok? then Done else Denied;
    }

    /** The password is written only after every token that the index lists is gone: all of the user's
        and no other's, when the index covers them. */
    method HandleChangePassword(userId: int, permitted: bool, updated: bool, now: int, jti: string, lost: Option<nat>)
      returns (reply: Reply)
      modifies store
      ensures reply == if permitted && updated && store.available && lost.None? then Done else Denied
      ensures !permitted ==> store.State() == old(store.State())
      ensures permitted && store.available && lost.None?
              && Indexed(old(store.State()), now) && OwnersOnly(old(store.State()), now) ==>
                forall other, t :: now <= t ==>
                  (Live(store.tokens, other, t) <==>
                     Live(old(store.tokens), other, t) && old(store.tokens)[other].userId != userId)
      ensures Served(old(store.State()), ChangePassword(userId, permitted, updated), now, jti, reply)
              || ((!store.available || lost.Some?) && BrokenOff(old(store.State()), jti, reply))
    {
      if !permitted {
        return Denied;
      }
      ghost var before := store.State();
      var revoked := store.RevokeTokensOf(userId, now, lost);
      if revoked.Ok? && Indexed(before, now) && OwnersOnly(before, now) {
        RevokedAreTheUsers(before, userId, now);
      }
      if revoked.Err? || !updated {
        return Denied;
      }
      return Done;
    }
  }
}
