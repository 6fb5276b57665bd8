/** One user's logins, refreshes and password changes, step by step.

    A login checks the password and later stores a token; a refresh takes a token out and later stores
    its successor; a change checks the old password, revokes all tokens, and then writes the new
    password.  Steps of different calls interleave freely.  Each store operation is one step here;
    RefreshInterleavings takes them apart. */
module PasswordChanges {
  /** Passwords are counted: number n is the one written by change n. */
  datatype Process =
    | Verified(password: nat)   // may store a token; the password it goes back to
    | Stored
    | Refused
    | Changing                  // has checked the old password
    | Revoked                   // has revoked all tokens
    | Changed

  /** A token is known by the process that stored it, and has the password it goes back to. */
  datatype State = State(password: nat, tokens: map<nat, nat>, processes: map<nat, Process>)

  datatype Event =
    | LogIn(p: nat, tried: nat)
    | Refresh(p: nat, token: nat)
    | StoreToken(p: nat)
    | LogOut(token: nat)
    | BeginChange(p: nat, tried: nat)
    | Revoke(p: nat)
    | Update(p: nat)

  predicate Is(s: State, p: nat, x: Process) {
    p in s.processes && s.processes[p] == x
  }

  function Become(s: State, p: nat, x: Process): State {
    s.(processes := s.processes[p := x])
  }

  function Apply(s: State, e: Event): State {
    match e
    case LogIn(p, tried) =>
      if p in s.processes then s else Become(s, p, if tried == s.password then Verified(tried) else Refused)
    case Refresh(p, token) =>
      if p in s.processes then s
      else if token in s.tokens then Become(s.(tokens := s.tokens - {token}), p, Verified(s.tokens[token]))
      else Become(s, p, Refused)
    case StoreToken(p) =>
      if p in s.processes && s.processes[p].Verified?
      then Become(s.(tokens := s.tokens[p := s.processes[p].password]), p, Stored)
      else s
    case LogOut(token) => s.(tokens := s.tokens - {token})
    case BeginChange(p, tried) =>
      if p in s.processes then s else Become(s, p, if tried == s.password then Changing else Refused)
    case Revoke(p) => if Is(s, p, Changing) then Become(s.(tokens := map[]), p, Revoked) else s
    case Update(p) => if Is(s, p, Revoked) then Become(s.(password := s.password + 1), p, Changed) else s
  }

  const Start := State(0, map[], map[])

  /** The state after the first n events. */
  function At(events: seq<Event>, n: nat): State
    requires n <= |events|
  {
    if n == 0 then Start else Apply(At(events, n - 1), events[n - 1])
  }

  /** Every usable token goes back to the password now in force. */
  predicate OnlyCurrent(s: State) {
    forall token :: token in s.tokens ==> s.tokens[token] == s.password
  }

  /** A token stored on the strength of a password that is no longer in force, or a password written
      while there are tokens that its change's revocation did not see. */
  predicate IsLate(s: State, e: Event) {
    match e
    case StoreToken(p) => p in s.processes && s.processes[p].Verified? && s.processes[p].password != s.password
    case Update(p) => Is(s, p, Revoked) && s.tokens != map[]
    case _ => false
  }

  lemma StepKeepsOnlyCurrentIffNotLate(s: State, e: Event)
    requires OnlyCurrent(s)
    ensures OnlyCurrent(Apply(s, e)) <==> !IsLate(s, e)
  {
    match e
    case StoreToken(p) =>
      if p in s.processes && s.processes[p].Verified? {
        assert p in Apply(s, e).tokens;
      }
    case Update(p) =>
      if Is(s, p, Revoked) && s.tokens != map[] {
        SomeToken(s.tokens);
        var token :| token in s.tokens;
        assert Apply(s, e).tokens[token] == s.password;
      }
    case _ =>
  }

  lemma SomeToken(tokens: map<nat, nat>)
    requires tokens != map[]
    ensures exists token :: token in tokens
  {
    assert (forall token :: token !in tokens) ==> tokens == map[];
  }

  predicate OnlyCurrentUpTo(events: seq<Event>, n: nat)
    requires n <= |events|
  {
    OnlyCurrent(At(events, n)) && (n > 0 ==> OnlyCurrentUpTo(events, n - 1))
  }

  predicate NoneLateUpTo(events: seq<Event>, n: nat)
    requires n <= |events|
  {
    n > 0 ==> !IsLate(At(events, n - 1), events[n - 1]) && NoneLateUpTo(events, n - 1)
  }

  /** In every run: no token ever goes back to an earlier password exactly when no step is late. */
  lemma {:induction false} OnlyCurrentIffNoneLate(events: seq<Event>, n: nat)
    requires n <= |events|
    ensures OnlyCurrentUpTo(events, n) <==> NoneLateUpTo(events, n)
  {
    if n > 0 {
      OnlyCurrentIffNoneLate(events, n - 1);
      if OnlyCurrentUpTo(events, n - 1) {
        StepKeepsOnlyCurrentIffNotLate(At(events, n - 1), events[n - 1]);
      }
    }
  }

  // ---- Which calls are late ----

  /** Event k is a store by this process that takes effect. */
  predicate StoresAt(events: seq<Event>, k: nat, p: nat)
    requires k < |events|
  {
    events[k] == StoreToken(p) && p in At(events, k).processes && At(events, k).processes[p].Verified?
  }

  /** Event k writes a new password. */
  predicate UpdatesAt(events: seq<Event>, k: nat)
    requires k < |events|
  {
    events[k].Update? && Is(At(events, k), events[k].p, Revoked)
  }

  /** A token that is there when a change writes its password was stored after the change's
      revocation. */
  lemma {:induction false} FoundTokenWasStoredSince(events: seq<Event>, n: nat, p: nat, token: nat)
    returns (revoked: nat, stored: nat)
    requires n <= |events| && Is(At(events, n), p, Revoked) && token in At(events, n).tokens
    ensures revoked < stored < n && events[revoked] == Revoke(p) && Is(At(events, revoked), p, Changing)
    ensures StoresAt(events, stored, token)
    decreases n
  {
    var s := At(events, n - 1);
    if Is(s, p, Revoked) && token in s.tokens {
      revoked, stored := FoundTokenWasStoredSince(events, n - 1, p, token);
    } else {
      stored := n - 1;
      revoked := RevokedAt(events, n - 1, p);
    }
  }

  lemma {:induction false} RevokedAt(events: seq<Event>, n: nat, p: nat) returns (k: nat)
    requires n <= |events| && Is(At(events, n), p, Revoked)
    ensures k < n && events[k] == Revoke(p) && Is(At(events, k), p, Changing)
    decreases n
  {
    if Is(At(events, n - 1), p, Revoked) {
      k := RevokedAt(events, n - 1, p);
    } else {
      k := n - 1;
    }
  }

  /** A process that holds a password no longer in force checked it, or took its token, before the
      change that replaced it wrote the new one. */
  lemma {:induction false} StaleProcessSawUpdate(events: seq<Event>, n: nat, p: nat)
    returns (checked: nat, updated: nat)
    requires n <= |events| && OnlyCurrentUpTo(events, n) && p in At(events, n).processes
    requires At(events, n).processes[p].Verified? && At(events, n).processes[p].password != At(events, n).password
    ensures checked < updated < n && UpdatesAt(events, updated)
    ensures (events[checked].LogIn? || events[checked].Refresh?) && events[checked].p == p
    ensures p !in At(events, checked).processes
    decreases n
  {
    var s := At(events, n - 1);
    if s.password == At(events, n).password {
      checked, updated := StaleProcessSawUpdate(events, n - 1, p);
    } else {
      updated := n - 1;
      checked := CheckedAt(events, n - 1, p);
    }
  }

  lemma {:induction false} CheckedAt(events: seq<Event>, n: nat, p: nat) returns (k: nat)
    requires n <= |events| && p in At(events, n).processes && At(events, n).processes[p].Verified?
    ensures k < n && (events[k].LogIn? || events[k].Refresh?) && events[k].p == p && p !in At(events, k).processes
    decreases n
  {
    if p in At(events, n - 1).processes {
      k := CheckedAt(events, n - 1, p);
    } else {
      k := n - 1;
    }
  }

  /** A late store is one by a call that checked its password, or took its token, before an update and
      stores after it. */
  lemma LateStoreStraddlesUpdate(events: seq<Event>, n: nat) returns (checked: nat, updated: nat)
    requires n < |events| && OnlyCurrentUpTo(events, n) && events[n].StoreToken? && IsLate(At(events, n), events[n])
    ensures checked < updated < n && UpdatesAt(events, updated)
    ensures (events[checked].LogIn? || events[checked].Refresh?) && events[checked].p == events[n].p
  {
    checked, updated := StaleProcessSawUpdate(events, n, events[n].p);
  }

  /** The process holds no password newer than the one in force, or an older one. */
  predicate HoldsNoNewer(s: State, p: nat) {
    p in s.processes && (s.processes[p].Verified? ==> s.processes[p].password <= s.password)
  }

  predicate IsStale(s: State, p: nat) {
    p in s.processes && (s.processes[p].Verified? ==> s.processes[p].password < s.password)
  }

  lemma StaysStale(s: State, e: Event, p: nat)
    ensures HoldsNoNewer(s, p) ==> HoldsNoNewer(Apply(s, e), p)
    ensures IsStale(s, p) ==> IsStale(Apply(s, e), p)
    ensures HoldsNoNewer(s, p) && e.Update? && Is(s, e.p, Revoked) ==> IsStale(Apply(s, e), p)
    ensures OnlyCurrent(s) && (e.LogIn? || e.Refresh?) && e.p == p && p !in s.processes ==> HoldsNoNewer(Apply(s, e), p)
  {
  }

  lemma {:induction false} CheckerHoldsNoNewer(events: seq<Event>, checked: nat, n: nat, p: nat)
    requires checked < n <= |events| && OnlyCurrent(At(events, checked)) && p !in At(events, checked).processes
    requires (events[checked].LogIn? || events[checked].Refresh?) && events[checked].p == p
    ensures HoldsNoNewer(At(events, n), p)
    decreases n
  {
    StaysStale(At(events, n - 1), events[n - 1], p);
    if checked < n - 1 {
      CheckerHoldsNoNewer(events, checked, n - 1, p);
    }
  }

  lemma {:induction false} StraddlerIsStale(events: seq<Event>, updated: nat, n: nat, p: nat)
    requires updated < n <= |events| && UpdatesAt(events, updated) && HoldsNoNewer(At(events, updated), p)
    ensures IsStale(At(events, n), p)
    decreases n
  {
    StaysStale(At(events, n - 1), events[n - 1], p);
    if updated < n - 1 {
      StraddlerIsStale(events, updated, n - 1, p);
    }
  }

  /** And every such store is late. */
  lemma StraddlingStoreIsLate(events: seq<Event>, checked: nat, updated: nat, n: nat, p: nat)
    requires checked < updated < n < |events| && OnlyCurrent(At(events, checked))
    requires (events[checked].LogIn? || events[checked].Refresh?) && events[checked].p == p
    requires p !in At(events, checked).processes && UpdatesAt(events, updated) && StoresAt(events, n, p)
    ensures IsLate(At(events, n), events[n])
  {
    CheckerHoldsNoNewer(events, checked, updated, p);
    StraddlerIsStale(events, updated, n, p);
  }

  /** A late update is one with a store between its change's revocation and it. */
  lemma LateUpdateFollowsStore(events: seq<Event>, n: nat) returns (revoked: nat, stored: nat)
    requires n < |events| && events[n].Update? && IsLate(At(events, n), events[n])
    ensures revoked < stored < n && events[revoked] == Revoke(events[n].p)
    ensures events[stored].StoreToken? && StoresAt(events, stored, events[stored].p)
  {
    SomeToken(At(events, n).tokens);
    var token :| token in At(events, n).tokens;
    revoked, stored := FoundTokenWasStoredSince(events, n, events[n].p, token);
  }

  /** A login that has checked the old password stores its token after the change is through: the
      token goes on, although the change succeeded and revoked everything there was. */
  lemma LoginOutlivesChange()
    ensures var s := At([LogIn(1, 0), BeginChange(2, 0), Revoke(2), Update(2), StoreToken(1)], 5);
            s.password == 1 && Is(s, 2, Changed) && s.tokens == map[1 := 0]
  {
    var events := [LogIn(1, 0), BeginChange(2, 0), Revoke(2), Update(2), StoreToken(1)];
    assert At(events, 0) == Start;
    assert At(events, 1) == State(0, map[], map[1 := Verified(0)]);
    assert At(events, 2) == State(0, map[], map[1 := Verified(0), 2 := Changing]);
    assert At(events, 3) == State(0, map[], map[1 := Verified(0), 2 := Revoked]);
    assert At(events, 4) == State(1, map[], map[1 := Verified(0), 2 := Changed]);
  }
}
