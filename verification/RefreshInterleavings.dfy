/** The Redis store's calls, command by command.

    Each call is a process that sends one command at a time; commands of different processes
    interleave freely, time passes between them, and a connection may break before a command or after
    it, which ends the call with an error.  Every store uses the same ttl and a new jti. */
module RefreshInterleavings {
  import opened Wrappers
  import opened RefreshTokens

  datatype Process =
    | Storing(jti: string, userId: int, done: nat)  // SETEX, SADD, EXPIRE
    | Issued(jti: string, userId: int)
    | Consuming(jti: string)                        // GETDEL
    | Unlisting(jti: string, userId: int)           // SREM
    | Accepted(jti: string, userId: int)
    | Refused
    | LookingUp(jti: string)                        // GET
    | Delisting(jti: string, userId: int)           // SREM
    | Deleting(jti: string)                         // DEL
    | Listing(userId: int)                          // SMEMBERS
    | Clearing(userId: int, left: set<string>)      // DEL each, then DEL of the index
    | Cleared(userId: int)
    | Finished
    | Failed

  datatype System = System(keys: Keys, clock: int, used: set<string>, processes: map<nat, Process>, ttl: int)

  datatype Event =
    | Begin(p: nat, op: Op)
    | Command(p: nat, pick: string)                 // `pick` is the token Clearing deletes next
    | Lose(p: nat, applied: bool, pick: string)
    | Pass(time: nat)

  predicate IsActive(x: Process) {
    || x.Storing? || x.Consuming? || x.Unlisting?
    || x.LookingUp? || x.Delisting? || x.Deleting?
    || x.Listing? || x.Clearing?
  }

  function First(op: Op): Process {
    match op
    case Store(jti, userId, _) => Storing(jti, userId, 0)
    case Consume(jti) => Consuming(jti)
    case Revoke(jti) => LookingUp(jti)
    case RevokeUser(userId) => Listing(userId)
  }

  /** What the next command of a process does to Redis. */
  function Effect(s: System, x: Process, pick: string): Keys {
    match x
    case Storing(jti, userId, done) =>
      if done == 0 then Setex(s.keys, jti, userId, s.ttl, s.clock)
      else if done == 1 then Sadd(s.keys, userId, jti, s.clock)
      else Expire(s.keys, userId, s.ttl, s.clock)
    case Consuming(jti) => if Live(s.keys.tokens, jti, s.clock) then Del(s.keys, jti) else s.keys
    case Unlisting(jti, userId) => Srem(s.keys, userId, jti)
    case Delisting(jti, userId) => Srem(s.keys, userId, jti)
    case Deleting(jti) => Del(s.keys, jti)
    case Clearing(userId, left) =>
      if left == {} then DelIndex(s.keys, userId) else if pick in left then Del(s.keys, pick) else s.keys
    case _ => s.keys
  }

  /** And what becomes of the process when it is answered. */
  function Next(s: System, x: Process, pick: string): Process {
    match x
    case Storing(jti, userId, done) => if done < 2 then Storing(jti, userId, done + 1) else Issued(jti, userId)
    case Consuming(jti) =>
      if Live(s.keys.tokens, jti, s.clock) then Unlisting(jti, s.keys.tokens[jti].userId) else Refused
    case Unlisting(jti, userId) => Accepted(jti, userId)
    case LookingUp(jti) =>
      if Live(s.keys.tokens, jti, s.clock) then Delisting(jti, s.keys.tokens[jti].userId) else Deleting(jti)
    case Delisting(jti, _) => Deleting(jti)
    case Deleting(_) => Finished
    case Listing(userId) => Clearing(userId, IndexOf(s.keys, userId, s.clock))
    case Clearing(userId, left) => if left == {} then Cleared(userId) else Clearing(userId, left - {pick})
    case _ => x
  }

  function Become(s: System, p: nat, x: Process): System {
    s.(processes := s.processes[p := x])
  }

  predicate CanBegin(s: System, p: nat, op: Op) {
    p !in s.processes && (op.Store? ==> op.jti !in s.used && op.ttl == s.ttl)
  }

  function Apply(s: System, e: Event): System {
    match e
    case Begin(p, op) =>
      if CanBegin(s, p, op) then Become(s.(used := UsedAfter(s.used, op)), p, First(op)) else s
    case Command(p, pick) =>
      if p in s.processes && IsActive(s.processes[p])
      then Become(s.(keys := Effect(s, s.processes[p], pick)), p, Next(s, s.processes[p], pick))
      else s
    case Lose(p, applied, pick) =>
      if p in s.processes && IsActive(s.processes[p])
      then Become(if applied then s.(keys := Effect(s, s.processes[p], pick)) else s, p, Failed)
      else s
    case Pass(time) => s.(clock := s.clock + time)
  }

  function Start(ttl: int): System {
    System(Keys(map[], map[]), 0, {}, map[], ttl)
  }

  /** The state after the first n events. */
  function At(ttl: int, events: seq<Event>, n: nat): System
    requires n <= |events|
  {
    if n == 0 then Start(ttl) else Apply(At(ttl, events, n - 1), events[n - 1])
  }

  // ---- Each token is in one hand ----

  /** The token a process holds: it is about to bring it to life, or has taken it out. */
  function Held(x: Process): Option<string> {
    if x.Storing? && x.done == 0 then Some(x.jti)
    else if x.Unlisting? || x.Accepted? then Some(x.jti)
    else None
  }

  /** The token a process stores or has stored. */
  function StoredBy(x: Process): Option<string> {
    if x.Storing? || x.Issued? then Some(x.jti) else None
  }

  ghost predicate OneHand(s: System) {
    && (forall p, q :: p in s.processes && q in s.processes && p != q && Held(s.processes[p]).Some? ==>
          Held(s.processes[p]) != Held(s.processes[q]))
    && (forall p :: p in s.processes && Held(s.processes[p]).Some? ==>
          Held(s.processes[p]).value in s.used && Held(s.processes[p]).value !in s.keys.tokens)
    && (forall jti :: jti in s.keys.tokens ==> jti in s.used)
  }

  ghost predicate OneStorer(s: System) {
    && (forall p, q :: p in s.processes && q in s.processes && p != q && StoredBy(s.processes[p]).Some? ==>
          StoredBy(s.processes[p]) != StoredBy(s.processes[q]))
    && (forall p :: p in s.processes && StoredBy(s.processes[p]).Some? ==>
          StoredBy(s.processes[p]).value in s.used)
    && (forall p :: p in s.processes && StoredBy(s.processes[p]).Some? && s.processes[p].jti in s.keys.tokens ==>
          s.keys.tokens[s.processes[p].jti].userId == s.processes[p].userId)
  }

  lemma {:induction false} AtInv(ttl: int, events: seq<Event>, n: nat)
    requires n <= |events|
    ensures Inv(At(ttl, events, n)) && At(ttl, events, n).ttl == ttl
  {
    if n > 0 {
      AtInv(ttl, events, n - 1);
      var s, e := At(ttl, events, n - 1), events[n - 1];
      OneHandKept(s, e);
      OneStorerKept(s, e);
      TimelyKept(s, e);
    }
  }

  predicate Sends(s: System, e: Event, x: Process) {
    (e.Command? || (e.Lose? && e.applied)) && e.p in s.processes && s.processes[e.p] == x
  }

  /** Tokens come from SETEX only, and are never rewritten. */
  lemma TokenFrame(s: System, e: Event, jti: string)
    requires OneHand(s) && jti in Apply(s, e).keys.tokens
    ensures var t := Apply(s, e).keys.tokens[jti];
            || (jti in s.keys.tokens && t == s.keys.tokens[jti])
            || (jti !in s.keys.tokens && t.expiresAt == s.clock + Lifetime(s.ttl)
                && Sends(s, e, Storing(jti, t.userId, 0)))
  {
    if Apply(s, e).keys != s.keys && s.processes[e.p].Storing? && s.processes[e.p].done == 0 {
      assert Held(s.processes[e.p]).Some?;
    }
  }

  /** A process that holds a token held it before, begins to store a new one, or takes it now. */
  lemma HolderFrame(s: System, e: Event, p: nat)
    requires p in Apply(s, e).processes && Held(Apply(s, e).processes[p]).Some?
    ensures var jti := Held(Apply(s, e).processes[p]).value;
            || (p in s.processes && Held(s.processes[p]) == Some(jti))
            || (e.Begin? && e.p == p && p !in s.processes && jti !in s.used && jti in Apply(s, e).used)
            || (e.Command? && e.p == p && jti in s.keys.tokens && jti !in Apply(s, e).keys.tokens)
  {
  }

  lemma OneHandKept(s: System, e: Event)
    requires OneHand(s)
    ensures OneHand(Apply(s, e))
  {
    var s' := Apply(s, e);
    forall p, q | p in s'.processes && q in s'.processes && p != q && Held(s'.processes[p]).Some?
      ensures Held(s'.processes[p]) != Held(s'.processes[q])
    {
      HolderFrame(s, e, p);
      if Held(s'.processes[q]).Some? {
        HolderFrame(s, e, q);
      }
    }
    forall p | p in s'.processes && Held(s'.processes[p]).Some?
      ensures Held(s'.processes[p]).value in s'.used && Held(s'.processes[p]).value !in s'.keys.tokens
    {
      HolderFrame(s, e, p);
      HeldIsOut(s, e, p);
    }
    forall jti | jti in s'.keys.tokens
      ensures jti in s'.used
    {
      TokenFrame(s, e, jti);
      if jti !in s.keys.tokens {
        assert Held(s.processes[e.p]) == Some(jti);
      }
    }
  }

  lemma HeldIsOut(s: System, e: Event, p: nat)
    requires OneHand(s) && p in Apply(s, e).processes && Held(Apply(s, e).processes[p]).Some?
    ensures Held(Apply(s, e).processes[p]).value !in Apply(s, e).keys.tokens
  {
    var jti := Held(Apply(s, e).processes[p]).value;
    HolderFrame(s, e, p);
    if jti in Apply(s, e).keys.tokens {
      TokenFrame(s, e, jti);
    }
  }

  /** A process that stores a token did so before, or begins now. */
  lemma StorerFrame(s: System, e: Event, p: nat)
    requires p in Apply(s, e).processes && StoredBy(Apply(s, e).processes[p]).Some?
    ensures var x := Apply(s, e).processes[p];
            if p in s.processes then StoredBy(s.processes[p]) == StoredBy(x) && s.processes[p].userId == x.userId
            else e == Begin(p, Store(x.jti, x.userId, s.ttl)) && x.jti !in s.used && x.Storing? && x.done == 0
  {
  }

  lemma OneStorerKept(s: System, e: Event)
    requires OneHand(s) && OneStorer(s)
    ensures OneStorer(Apply(s, e))
  {
    var s' := Apply(s, e);
    forall p, q | p in s'.processes && q in s'.processes && p != q && StoredBy(s'.processes[p]).Some?
      ensures StoredBy(s'.processes[p]) != StoredBy(s'.processes[q])
    {
      StorerFrame(s, e, p);
      if StoredBy(s'.processes[q]).Some? {
        StorerFrame(s, e, q);
      }
    }
    forall p | p in s'.processes && StoredBy(s'.processes[p]).Some?
      ensures s'.processes[p].jti in s'.used
      ensures s'.processes[p].jti in s'.keys.tokens ==>
                s'.keys.tokens[s'.processes[p].jti].userId == s'.processes[p].userId
    {
      StorerFrame(s, e, p);
      if s'.processes[p].jti in s'.keys.tokens {
        OwnerKept(s, e, p);
      }
    }
  }

  lemma OwnerKept(s: System, e: Event, p: nat)
    requires OneHand(s) && OneStorer(s)
    requires p in Apply(s, e).processes && StoredBy(Apply(s, e).processes[p]).Some?
    requires Apply(s, e).processes[p].jti in Apply(s, e).keys.tokens
    ensures Apply(s, e).keys.tokens[Apply(s, e).processes[p].jti].userId == Apply(s, e).processes[p].userId
  {
    var x := Apply(s, e).processes[p];
    StorerFrame(s, e, p);
    TokenFrame(s, e, x.jti);
    if p in s.processes && x.jti !in s.keys.tokens {
      assert StoredBy(s.processes[e.p]) == StoredBy(s.processes[p]);
    }
  }

  /** However commands interleave and wherever calls break off, no token is accepted by two calls. */
  lemma AcceptedAtMostOnce(ttl: int, events: seq<Event>, n: nat, p: nat, q: nat)
    requires n <= |events| && p in At(ttl, events, n).processes && q in At(ttl, events, n).processes && p != q
    requires At(ttl, events, n).processes[p].Accepted? && At(ttl, events, n).processes[q].Accepted?
    ensures At(ttl, events, n).processes[p].jti != At(ttl, events, n).processes[q].jti
  {
    AtInv(ttl, events, n);
    var s := At(ttl, events, n);
    assert Held(s.processes[p]) != Held(s.processes[q]);
  }

  // ---- Listed tokens ----

  predicate IsLive(s: System, jti: string) {
    Live(s.keys.tokens, jti, s.clock)
  }

  predicate IssuedBy(s: System, p: nat, jti: string) {
    p in s.processes && s.processes[p].Issued? && s.processes[p].jti == jti
  }

  ghost predicate IssuedIn(s: System, jti: string) {
    exists p :: IssuedBy(s, p, jti)
  }

  /** In its owner's index as a reader would find it now. */
  predicate Listed(s: System, jti: string) {
    jti in s.keys.tokens && jti in IndexOf(s.keys, s.keys.tokens[jti].userId, s.clock)
  }

  predicate DeletedBy(s: System, p: nat, jti: string) {
    p in s.processes && s.processes[p] == Deleting(jti)
  }

  ghost predicate BeingDeleted(s: System, jti: string) {
    exists p :: DeletedBy(s, p, jti)
  }

  /** Every token a caller was given and could still use can be found by its owner's revocation, or is
      on its way out. */
  ghost predicate Covered(s: System) {
    forall jti :: IssuedIn(s, jti) && IsLive(s, jti) ==> Listed(s, jti) || BeingDeleted(s, jti)
  }

  ghost predicate LongEnough(s: System, jti: string) {
    Listed(s, jti) ==>
      var x := s.keys.index[s.keys.tokens[jti].userId];
      x.expiresAt.None? || s.keys.tokens[jti].expiresAt <= x.expiresAt.value
  }

  /** No token outlives the ttl from now, an index outlives the issued tokens it lists, and a call that
      is about to take a token off an index has the right one. */
  ghost predicate Timely(s: System) {
    && (forall jti :: jti in s.keys.tokens ==> s.keys.tokens[jti].expiresAt <= s.clock + Lifetime(s.ttl))
    && (forall jti :: IssuedIn(s, jti) ==> LongEnough(s, jti))
    && (forall p :: p in s.processes && s.processes[p].Delisting? ==> DelistsRightly(s, s.processes[p]))
  }

  ghost predicate DelistsRightly(s: System, x: Process)
    requires x.Delisting?
  {
    && x.jti in s.used
    && (forall q :: q in s.processes && s.processes[q].Storing? && s.processes[q].done == 0 ==>
          s.processes[q].jti != x.jti)
    && (x.jti in s.keys.tokens ==> s.keys.tokens[x.jti].userId == x.userId)
  }

  ghost predicate Inv(s: System) {
    OneHand(s) && OneStorer(s) && Timely(s)
  }

  /** An issued token was issued before, or by this event's EXPIRE; a live one was live before. */
  lemma IssuedTokenFrame(s: System, e: Event, jti: string)
    requires Inv(s) && IssuedIn(Apply(s, e), jti)
    ensures IssuedIn(s, jti)
            || (e.Command? && e.p in s.processes && s.processes[e.p].Storing? && s.processes[e.p].jti == jti
                && s.processes[e.p].done >= 2)
    ensures jti in Apply(s, e).keys.tokens ==>
              jti in s.keys.tokens && Apply(s, e).keys.tokens[jti] == s.keys.tokens[jti]
    ensures IsLive(Apply(s, e), jti) ==> IsLive(s, jti)
  {
    var s' := Apply(s, e);
    var p :| IssuedBy(s', p, jti);
    if p in s.processes && s.processes[p] == s'.processes[p] {
      assert IssuedBy(s, p, jti);
      assert StoredBy(s.processes[p]) == Some(jti);
    } else {
      assert StoredBy(s.processes[p]) == Some(jti);
    }
  }

  lemma TimelyKept(s: System, e: Event)
    requires Inv(s)
    ensures Timely(Apply(s, e))
  {
    var s' := Apply(s, e);
    forall jti | jti in s'.keys.tokens
      ensures s'.keys.tokens[jti].expiresAt <= s'.clock + Lifetime(s'.ttl)
    {
      TokenFrame(s, e, jti);
    }
    forall jti | IssuedIn(s', jti)
      ensures LongEnough(s', jti)
    {
      LongEnoughKept(s, e, jti);
    }
    forall p | p in s'.processes && s'.processes[p].Delisting?
      ensures DelistsRightly(s', s'.processes[p])
    {
      DelistsRightlyKept(s, e, p);
    }
  }

  lemma LongEnoughKept(s: System, e: Event, jti: string)
    requires Inv(s) && IssuedIn(Apply(s, e), jti)
    ensures LongEnough(Apply(s, e), jti)
  {
    IssuedTokenFrame(s, e, jti);
    if Listed(Apply(s, e), jti) {
      ListedFrame(s, e, jti);
      if IssuedIn(s, jti) {
        assert LongEnough(s, jti);
      }
    }
  }

  /** SADD lists no other token, and EXPIRE none at all. */
  lemma SaddLists(k: Keys, userId: int, jti: string, now: int, owner: int, other: string)
    requires other in IndexOf(Sadd(k, userId, jti, now), owner, now) && other != jti
    ensures other in IndexOf(k, owner, now)
    ensures Sadd(k, userId, jti, now).index[owner].expiresAt == k.index[owner].expiresAt
  {
  }

  lemma ExpireLists(k: Keys, userId: int, ttl: int, now: int, owner: int, other: string)
    requires other in IndexOf(Expire(k, userId, ttl, now), owner, now)
    ensures other in IndexOf(k, owner, now)
    ensures var expiry := Expire(k, userId, ttl, now).index[owner].expiresAt;
            expiry == k.index[owner].expiresAt || expiry == Some(now + Lifetime(ttl))
  {
  }

  ghost predicate ListedAsBefore(s: System, s': System, jti: string) {
    && Listed(s, jti) && Listed(s', jti) && s.keys.tokens[jti] == s'.keys.tokens[jti]
    && s'.keys.index[s.keys.tokens[jti].userId].expiresAt == s.keys.index[s.keys.tokens[jti].userId].expiresAt
  }

  /** A listed token was listed with the same expiry, or its index has just been given a new one. */
  lemma ListedFrame(s: System, e: Event, jti: string)
    requires Inv(s) && IssuedIn(Apply(s, e), jti) && Listed(Apply(s, e), jti)
    ensures var s' := Apply(s, e);
            || (IssuedIn(s, jti) && ListedAsBefore(s, s', jti))
            || s'.keys.index[s'.keys.tokens[jti].userId].expiresAt == Some(s.clock + Lifetime(s.ttl))
  {
    if (e.Command? || e.Lose?) && e.p in s.processes && s.processes[e.p].Storing? {
      StoringListedFrame(s, e, jti);
    } else {
      IssuedTokenFrame(s, e, jti);
    }
  }

  lemma StoringListedFrame(s: System, e: Event, jti: string)
    requires Inv(s) && IssuedIn(Apply(s, e), jti) && Listed(Apply(s, e), jti)
    requires (e.Command? || e.Lose?) && e.p in s.processes && s.processes[e.p].Storing?
    ensures var s' := Apply(s, e);
            || (IssuedIn(s, jti) && ListedAsBefore(s, s', jti))
            || s'.keys.index[s'.keys.tokens[jti].userId].expiresAt == Some(s.clock + Lifetime(s.ttl))
  {
    var s' := Apply(s, e);
    var x := s.processes[e.p];
    IssuedTokenFrame(s, e, jti);
    var owner := s'.keys.tokens[jti].userId;
    assert StoredBy(x) == Some(x.jti);
    if s'.keys == Sadd(s.keys, x.userId, x.jti, s.clock) && x.done == 1 {
      var q :| IssuedBy(s, q, jti);
      assert StoredBy(s.processes[q]) == Some(jti);
      SaddLists(s.keys, x.userId, x.jti, s.clock, owner, jti);
    } else if s'.keys == Expire(s.keys, x.userId, s.ttl, s.clock) && x.done >= 2 {
      ExpireLists(s.keys, x.userId, s.ttl, s.clock, owner, jti);
    }
  }

  lemma DelistsRightlyKept(s: System, e: Event, p: nat)
    requires Inv(s) && p in Apply(s, e).processes && Apply(s, e).processes[p].Delisting?
    ensures DelistsRightly(Apply(s, e), Apply(s, e).processes[p])
  {
    var x := Apply(s, e).processes[p];
    if x.jti in Apply(s, e).keys.tokens {
      TokenFrame(s, e, x.jti);
    }
    if s.processes[p] == x {
      assert DelistsRightly(s, x);
    }
  }

  // ---- What takes a token off its index ----

  /** Issued, usable, and not on its way out. */
  ghost predicate Exposable(s: System, jti: string) {
    IssuedIn(s, jti) && IsLive(s, jti) && !BeingDeleted(s, jti)
  }

  /** An index about to be deleted has gained a token since it was listed. */
  ghost predicate IndexHasGained(s: System, userId: int) {
    exists jti :: jti in IndexOf(s.keys, userId, s.clock) && Exposable(s, jti) && s.keys.tokens[jti].userId == userId
  }

  /** The steps after which an issued token can no longer be found: its index ran out between its SADD
      and its EXPIRE; a revocation of its user deletes an index that has gained it in the meantime; a
      logout breaks off after taking it off the index and before deleting it. */
  ghost predicate Exposes(s: System, e: Event) {
    (e.Command? || e.Lose?) && e.p in s.processes &&
    match s.processes[e.p]
    case Storing(jti, userId, done) =>
      e.Command? && done >= 2 && IsLive(s, jti) && !BeingDeleted(s, jti) && jti !in IndexOf(s.keys, userId, s.clock)
    case Clearing(userId, left) => Sends(s, e, s.processes[e.p]) && left == {} && IndexHasGained(s, userId)
    case Delisting(jti, _) => e.Lose? && e.applied && Exposable(s, jti)
    case Deleting(jti) =>
      && e.Lose? && !e.applied && IssuedIn(s, jti) && IsLive(s, jti) && !Listed(s, jti)
      && forall q :: DeletedBy(s, q, jti) ==> q == e.p
    case _ => false
  }

  /** What a step leaves of an issued token. */
  ghost predicate CoveredOne(s: System, jti: string) {
    IssuedIn(s, jti) && IsLive(s, jti) ==> Listed(s, jti) || BeingDeleted(s, jti)
  }

  lemma IssuedStays(s: System, e: Event, jti: string)
    requires IssuedIn(s, jti)
    ensures IssuedIn(Apply(s, e), jti)
  {
    var p :| IssuedBy(s, p, jti);
    assert IssuedBy(Apply(s, e), p, jti);
  }

  /** A deletion under way ends in the deletion, or breaks off before it. */
  lemma DeletionStays(s: System, e: Event, jti: string)
    requires BeingDeleted(s, jti) && jti in Apply(s, e).keys.tokens
    ensures BeingDeleted(Apply(s, e), jti)
            || (e.Lose? && !e.applied && DeletedBy(s, e.p, jti) && forall q :: DeletedBy(s, q, jti) ==> q == e.p)
  {
    var s' := Apply(s, e);
    if !BeingDeleted(s', jti) {
      forall q | DeletedBy(s, q, jti)
        ensures (e.Command? || e.Lose?) && q == e.p
      {
        assert !DeletedBy(s', q, jti);
      }
    }
  }

  lemma NoNewDeletion(s: System, e: Event, jti: string)
    requires BeingDeleted(Apply(s, e), jti)
    ensures BeingDeleted(s, jti)
            || (e.Command? && e.p in s.processes &&
                (s.processes[e.p] == LookingUp(jti) || (s.processes[e.p].Delisting? && s.processes[e.p].jti == jti)))
  {
    var q :| DeletedBy(Apply(s, e), q, jti);
    assert DeletedBy(s, q, jti) || ((e.Command? || e.Lose?) && q == e.p);
  }

  /** An issued token leaves its index only by an SREM of its own or with the whole index. */
  lemma ListingStays(s: System, e: Event, jti: string)
    requires Inv(s) && IssuedIn(s, jti) && Listed(s, jti) && IsLive(Apply(s, e), jti)
    ensures Listed(Apply(s, e), jti)
            || ((e.Command? || (e.Lose? && e.applied)) && e.p in s.processes &&
                var x := s.processes[e.p];
                (x.Delisting? && x.jti == jti) || (x == Clearing(s.keys.tokens[jti].userId, {})))
  {
    IssuedStays(s, e, jti);
    IssuedTokenFrame(s, e, jti);
    assert LongEnough(s, jti);
    if (e.Command? || e.Lose?) && e.p in s.processes {
      if s.processes[e.p].Unlisting? {
        assert Held(s.processes[e.p]) == Some(s.processes[e.p].jti);
      } else if s.processes[e.p].Storing? {
        StoringDelistsNothing(s, e, jti);
      }
    }
  }

  lemma StoringDelistsNothing(s: System, e: Event, jti: string)
    requires Inv(s) && Listed(s, jti) && jti in Apply(s, e).keys.tokens
             && Apply(s, e).keys.tokens[jti] == s.keys.tokens[jti]
    requires (e.Command? || e.Lose?) && e.p in s.processes && s.processes[e.p].Storing?
    ensures Listed(Apply(s, e), jti)
  {
  }

  lemma OthersStay(s: System, e: Event, jti: string)
    requires BeingDeleted(s, jti) && (e.Command? || e.Lose?) && !DeletedBy(s, e.p, jti)
    ensures BeingDeleted(Apply(s, e), jti)
  {
    var q :| DeletedBy(s, q, jti);
    assert DeletedBy(Apply(s, e), q, jti);
  }

  lemma QuietExpireCovers(s: System, e: Event, jti: string)
    requires Inv(s) && Covered(s) && !Exposes(s, e) && IsLive(Apply(s, e), jti)
    requires e.Command? && e.p in s.processes && s.processes[e.p].Storing? && s.processes[e.p].jti == jti
             && s.processes[e.p].done >= 2
    ensures CoveredOne(Apply(s, e), jti)
  {
    assert StoredBy(s.processes[e.p]) == Some(jti);
    if BeingDeleted(s, jti) {
      OthersStay(s, e, jti);
    }
  }

  /** A step that exposes nothing keeps every token covered. */
  lemma QuietStepCovers(s: System, e: Event, jti: string)
    requires Inv(s) && Covered(s) && !Exposes(s, e)
    ensures CoveredOne(Apply(s, e), jti)
  {
    var s' := Apply(s, e);
    if IssuedIn(s', jti) && IsLive(s', jti) {
      IssuedTokenFrame(s, e, jti);
      if !IssuedIn(s, jti) {
        QuietExpireCovers(s, e, jti);
      } else if BeingDeleted(s, jti) {
        DeletionStays(s, e, jti);
      } else {
        ListingStays(s, e, jti);
        if !Listed(s', jti) {
          var x := s.processes[e.p];
          if x.Delisting? {
            assert e.Command?;
            assert DeletedBy(s', e.p, jti);
          } else {
            assert Exposable(s, jti) && IndexHasGained(s, x.userId);
            assert false;
          }
        }
      }
    }
  }

  /** And one that does leaves a token that a caller could still use and no revocation would find. */
  lemma ExposingStepUncovers(s: System, e: Event)
    requires Inv(s) && Exposes(s, e)
    ensures !Covered(Apply(s, e))
  {
    var s' := Apply(s, e);
    var x := s.processes[e.p];
    match x
    case Storing(jti, userId, _) =>
      assert StoredBy(x) == Some(jti) && IssuedBy(s', e.p, jti);
      if BeingDeleted(s', jti) { NoNewDeletion(s, e, jti); }
      assert !CoveredOne(s', jti);
    case Clearing(userId, _) =>
      var jti :| jti in IndexOf(s.keys, userId, s.clock) && Exposable(s, jti) && s.keys.tokens[jti].userId == userId;
      IssuedStays(s, e, jti);
      if BeingDeleted(s', jti) { NoNewDeletion(s, e, jti); }
      assert !CoveredOne(s', jti);
    case Delisting(jti, _) =>
      IssuedStays(s, e, jti);
      assert DelistsRightly(s, x);
      if BeingDeleted(s', jti) { NoNewDeletion(s, e, jti); }
      assert !CoveredOne(s', jti);
    case Deleting(jti) =>
      IssuedStays(s, e, jti);
      if BeingDeleted(s', jti) {
        var q :| DeletedBy(s', q, jti);
        assert DeletedBy(s, q, jti);
        assert false;
      }
      assert !CoveredOne(s', jti);
  }

  lemma StepKeepsCoveredIffQuiet(s: System, e: Event)
    requires Inv(s) && Covered(s)
    ensures Covered(Apply(s, e)) <==> !Exposes(s, e)
  {
    if Exposes(s, e) {
      ExposingStepUncovers(s, e);
    } else {
      forall jti
        ensures CoveredOne(Apply(s, e), jti)
      {
        QuietStepCovers(s, e, jti);
      }
      CoveredOneByOne(Apply(s, e));
    }
  }

  lemma CoveredOneByOne(s: System)
    requires forall jti :: CoveredOne(s, jti)
    ensures Covered(s)
  {
    forall jti | IssuedIn(s, jti) && IsLive(s, jti)
      ensures Listed(s, jti) || BeingDeleted(s, jti)
    {
      assert CoveredOne(s, jti);
    }
  }

  ghost predicate CoveredUpTo(ttl: int, events: seq<Event>, n: nat)
    requires n <= |events|
  {
    Covered(At(ttl, events, n)) && (n > 0 ==> CoveredUpTo(ttl, events, n - 1))
  }

  ghost predicate QuietUpTo(ttl: int, events: seq<Event>, n: nat)
    requires n <= |events|
  {
    n > 0 ==> !Exposes(At(ttl, events, n - 1), events[n - 1]) && QuietUpTo(ttl, events, n - 1)
  }

  /** In every run: all issued tokens can be found by their owner's revocation at all times exactly
      when none of the three steps that expose one ever happens. */
  lemma {:induction false} AlwaysCoveredIffQuiet(ttl: int, events: seq<Event>, n: nat)
    requires n <= |events|
    ensures CoveredUpTo(ttl, events, n) <==> QuietUpTo(ttl, events, n)
  {
    if n > 0 {
      AlwaysCoveredIffQuiet(ttl, events, n - 1);
      AtInv(ttl, events, n - 1);
      if CoveredUpTo(ttl, events, n - 1) {
        StepKeepsCoveredIffQuiet(At(ttl, events, n - 1), events[n - 1]);
      }
    }
  }

  // ---- Password change ----

  /** How far a revocation that began after the token was issued has got with it. */
  ghost predicate Doomed(s: System, p: nat, jti: string) {
    IssuedIn(s, jti) && p in s.processes &&
    (IsLive(s, jti) ==>
       match s.processes[p]
       case Clearing(_, left) => jti in left || (!Listed(s, jti) && BeingDeleted(s, jti))
       case Cleared(_) => !Listed(s, jti) && BeingDeleted(s, jti)
       case _ => true)
  }

  /** No token that was issued to begin with is listed again once it is off its index. */
  lemma UnlistedStays(s: System, e: Event, jti: string)
    requires Inv(s) && IssuedIn(s, jti) && !Listed(s, jti)
    ensures !Listed(Apply(s, e), jti)
  {
    IssuedStays(s, e, jti);
    IssuedTokenFrame(s, e, jti);
    var q :| IssuedBy(s, q, jti);
    if (e.Command? || e.Lose?) && e.p in s.processes && s.processes[e.p].Storing? {
      assert StoredBy(s.processes[q]) == Some(jti) && StoredBy(s.processes[e.p]) != Some(jti);
    }
  }

  lemma DoomedStays(s: System, e: Event, p: nat, jti: string)
    requires Inv(s) && Covered(s) && !Exposes(s, e) && Doomed(s, p, jti)
    requires jti in s.keys.tokens && s.processes[p].Listing? ==> s.processes[p].userId == s.keys.tokens[jti].userId
    ensures Doomed(Apply(s, e), p, jti)
  {
    var s' := Apply(s, e);
    IssuedStays(s, e, jti);
    if IsLive(s', jti) {
      IssuedTokenFrame(s, e, jti);
      if !Listed(s, jti) {
        UnlistedStays(s, e, jti);
        if BeingDeleted(s, jti) {
          DeletionStays(s, e, jti);
        }
      }
    }
  }

  predicate IssuedTo(s: System, q: nat, jti: string, userId: int) {
    q in s.processes && s.processes[q] == Issued(jti, userId)
  }

  ghost predicate Pursued(s: System, p: nat, q: nat, jti: string, userId: int) {
    && Doomed(s, p, jti) && IssuedTo(s, q, jti, userId)
    && (s.processes[p].Listing? ==> s.processes[p].userId == userId)
  }

  lemma PursuitBegins(s: System, p: nat, q: nat, jti: string, userId: int)
    requires p !in s.processes && IssuedTo(s, q, jti, userId)
    ensures Pursued(Apply(s, Begin(p, RevokeUser(userId))), p, q, jti, userId)
  {
    assert IssuedBy(s, q, jti);
    IssuedStays(s, Begin(p, RevokeUser(userId)), jti);
  }

  lemma PursuitGoesOn(s: System, e: Event, p: nat, q: nat, jti: string, userId: int)
    requires Inv(s) && Covered(s) && !Exposes(s, e) && Pursued(s, p, q, jti, userId)
    ensures Pursued(Apply(s, e), p, q, jti, userId)
  {
    assert StoredBy(s.processes[q]) == Some(jti);
    DoomedStays(s, e, p, jti);
  }

  lemma {:induction false} PursuedUntil(ttl: int, events: seq<Event>, i: nat, n: nat, p: nat, q: nat,
                                        jti: string, userId: int)
    requires i < n <= |events| && events[i] == Begin(p, RevokeUser(userId)) && p !in At(ttl, events, i).processes
    requires IssuedTo(At(ttl, events, i), q, jti, userId) && QuietUpTo(ttl, events, n)
    ensures Pursued(At(ttl, events, n), p, q, jti, userId)
    decreases n
  {
    var s := At(ttl, events, n - 1);
    if n - 1 == i {
      PursuitBegins(s, p, q, jti, userId);
    } else {
      PursuedUntil(ttl, events, i, n - 1, p, q, jti, userId);
      AtInv(ttl, events, n - 1);
      AlwaysCoveredIffQuiet(ttl, events, n - 1);
      PursuitGoesOn(s, events[n - 1], p, q, jti, userId);
    }
  }

  predicate HasTaken(s: System, r: nat, jti: string) {
    r in s.processes && (s.processes[r].Unlisting? || s.processes[r].Accepted?) && s.processes[r].jti == jti
  }

  ghost predicate Dead(s: System, jti: string) {
    IssuedIn(s, jti) && !IsLive(s, jti)
  }

  lemma DeadStaysDead(s: System, e: Event, r: nat, jti: string)
    requires Inv(s) && Dead(s, jti)
    ensures Dead(Apply(s, e), jti) && (HasTaken(Apply(s, e), r, jti) ==> HasTaken(s, r, jti))
  {
    IssuedStays(s, e, jti);
    IssuedTokenFrame(s, e, jti);
  }

  lemma {:induction false} DeadIsNotTaken(ttl: int, events: seq<Event>, n: nat, m: nat, r: nat, jti: string)
    requires n <= m <= |events| && Dead(At(ttl, events, n), jti)
    ensures Dead(At(ttl, events, m), jti)
    ensures HasTaken(At(ttl, events, m), r, jti) ==> HasTaken(At(ttl, events, n), r, jti)
    decreases m
  {
    if n < m {
      DeadIsNotTaken(ttl, events, n, m - 1, r, jti);
      AtInv(ttl, events, m - 1);
      DeadStaysDead(At(ttl, events, m - 1), events[m - 1], r, jti);
    }
  }

  /** A token issued to the user before a revocation began is dead when the revocation is done, and no
      call that had not already taken it ever gets it, provided no step has exposed a token and no
      logout is about to delete this one. */
  lemma RevocationEndsEarlierTokens(ttl: int, events: seq<Event>, i: nat, n: nat, m: nat, p: nat, q: nat, r: nat,
                                    jti: string, userId: int)
    requires i < n <= m <= |events| && events[i] == Begin(p, RevokeUser(userId)) && p !in At(ttl, events, i).processes
    requires IssuedTo(At(ttl, events, i), q, jti, userId)
    requires p in At(ttl, events, n).processes && At(ttl, events, n).processes[p].Cleared?
    requires QuietUpTo(ttl, events, n) && !BeingDeleted(At(ttl, events, n), jti)
    ensures !IsLive(At(ttl, events, n), jti)
    ensures HasTaken(At(ttl, events, m), r, jti) ==> HasTaken(At(ttl, events, n), r, jti)
  {
    PursuedUntil(ttl, events, i, n, p, q, jti, userId);
    DeadIsNotTaken(ttl, events, n, m, r, jti);
  }

  /** A process sending its commands undisturbed. */
  function SendAll(s: System, p: nat, picks: seq<string>): System
    decreases |picks|
  {
    if picks == [] then s else SendAll(Apply(s, Command(p, picks[0])), p, picks[1..])
  }

  lemma {:induction false} ClearingSpares(s: System, p: nat, picks: seq<string>, jti: string)
    requires p in s.processes && IsLive(s, jti)
    requires (s.processes[p].Clearing? && jti !in s.processes[p].left) || s.processes[p].Cleared?
    ensures IsLive(SendAll(s, p, picks), jti)
    decreases |picks|
  {
    if picks != [] {
      ClearingSpares(Apply(s, Command(p, picks[0])), p, picks[1..], jti);
    }
  }

  /** What coverage is for: a live token that is not on its owner's index survives the owner's
      revocation, even one that runs undisturbed and to its end. */
  lemma UnlistedTokenSurvivesRevocation(s: System, p: nat, picks: seq<string>, jti: string)
    requires IsLive(s, jti) && !Listed(s, jti) && p !in s.processes
    ensures IsLive(SendAll(Apply(s, Begin(p, RevokeUser(s.keys.tokens[jti].userId))), p, [""] + picks), jti)
  {
    var begun := Apply(s, Begin(p, RevokeUser(s.keys.tokens[jti].userId)));
    assert ([""] + picks)[1..] == picks;
    ClearingSpares(Apply(begun, Command(p, "")), p, picks, jti);
  }

  const OneToken := System(Keys(map["a" := Token(7, 10)], map[7 := Index({"a"}, Some(10))]), 0, {"a"},
                           map[1 := Issued("a", 7)], 10)

  const LateStore := System(
    Keys(map["a" := Token(7, 10), "b" := Token(7, 19)], map[7 := Index({"a", "b"}, Some(10))]),
    9, {"a", "b"}, map[1 := Issued("a", 7), 2 := Storing("b", 7, 2)], 10)

  /** The next n commands of a process that has nothing to choose. */
  function Commands(s: System, p: nat, n: nat): System {
    if n == 0 then s else Apply(Commands(s, p, n - 1), Command(p, ""))
  }

  lemma FirstStoreLeadsToOneToken()
    ensures Commands(Apply(Start(10), Begin(1, Store("a", 7, 10))), 1, 3) == OneToken
  {
    var s := Apply(Start(10), Begin(1, Store("a", 7, 10)));
    assert Apply(s, Command(1, "")).keys == Keys(map["a" := Token(7, 10)], map[]);
    assert s.used == {"a"};
  }

  lemma SecondStoreLeadsToLateStore()
    ensures Commands(Apply(Apply(OneToken, Pass(9)), Begin(2, Store("b", 7, 10))), 2, 2) == LateStore
  {
    var s := Apply(Apply(OneToken, Pass(9)), Begin(2, Store("b", 7, 10)));
    assert {"a"} + {"b"} == {"a", "b"};
    assert s == System(OneToken.keys, 9, {"a", "b"}, map[1 := Issued("a", 7), 2 := Storing("b", 7, 0)], 10);
    assert Apply(s, Command(2, "")).keys == Keys(LateStore.keys.tokens, map[7 := Index({"a"}, Some(10))]);
  }

  const Lapsed := LateStore.(clock := 10, processes := map[1 := Issued("a", 7), 2 := Issued("b", 7)])

  const Missed := Lapsed.(keys := Keys(LateStore.keys.tokens, map[]), processes := Lapsed.processes[3 := Cleared(7)])

  lemma ExpireComesTooLate()
    ensures Apply(Apply(LateStore, Pass(1)), Command(2, "")) == Lapsed
    ensures Exposes(Apply(LateStore, Pass(1)), Command(2, ""))
  {
    var s := Apply(LateStore, Pass(1));
    assert s.processes[2] == Storing("b", 7, 2) && s.processes[1] == Issued("a", 7);
    assert IndexOf(s.keys, 7, 10) == {};
  }

  lemma RevocationMissesToken()
    ensures Commands(Apply(Lapsed, Begin(3, RevokeUser(7))), 3, 2) == Missed
  {
    var s := Apply(Lapsed, Begin(3, RevokeUser(7)));
    assert s == Lapsed.(processes := Lapsed.processes[3 := Listing(7)]);
    assert Commands(s, 3, 0) == s;
    assert Commands(s, 3, 1) == Lapsed.(processes := Lapsed.processes[3 := Clearing(7, {})]);
    assert Commands(s, 3, 2) == Apply(Commands(s, 3, 1), Command(3, ""));
  }

  lemma MissedTokenIsAccepted()
    ensures var s := Commands(Apply(Missed, Begin(4, Consume("b"))), 4, 2);
            4 in s.processes && s.processes[4] == Accepted("b", 7)
  {
    var s := Apply(Missed, Begin(4, Consume("b")));
    assert s == Missed.(processes := Missed.processes[4 := Consuming("b")]);
    assert Commands(s, 4, 0) == s;
    assert Commands(s, 4, 1).processes[4] == Unlisting("b", 7);
    assert Commands(s, 4, 2) == Apply(Commands(s, 4, 1), Command(4, ""));
  }

  /** A store whose index runs out between its SADD and its EXPIRE: a revocation that begins after the
      token was issued misses it, and it is accepted afterwards, though no two calls overlap. */
  lemma IndexRunsOutUnderStore()
    ensures Commands(Apply(Start(10), Begin(1, Store("a", 7, 10))), 1, 3) == OneToken
    ensures Commands(Apply(Apply(OneToken, Pass(9)), Begin(2, Store("b", 7, 10))), 2, 2) == LateStore
    ensures Apply(Apply(LateStore, Pass(1)), Command(2, "")) == Lapsed && IssuedTo(Lapsed, 2, "b", 7)
    ensures Exposes(Apply(LateStore, Pass(1)), Command(2, ""))
    ensures Commands(Apply(Lapsed, Begin(3, RevokeUser(7))), 3, 2) == Missed && Missed.processes[3] == Cleared(7)
    ensures var s := Commands(Apply(Missed, Begin(4, Consume("b"))), 4, 2);
            4 in s.processes && s.processes[4] == Accepted("b", 7)
  {
    FirstStoreLeadsToOneToken();
    SecondStoreLeadsToLateStore();
    ExpireComesTooLate();
    RevocationMissesToken();
    MissedTokenIsAccepted();
  }
}
