/** Creates that interleave.  A create first looks its request id up and inserts a row only if it found
    none; the two are separate statements, and nothing in the table keeps a request id unique.

    The table compares request ids without regard to letter case, so one lookup may find a row of
    another spelling. */
module ConcurrentCreates {
  import opened Wrappers
  import opened TaskStatus
  import opened ImageRows

  /** What the table compares request ids by.  The ids the service lets through are letters, digits,
      '_' and '-', of which its collation identifies no two but the cases of a letter. */
  function NameKey(requestId: string): string {
    Lower(requestId)
  }

  /** The rows a user's request id names: those the lookup may answer with. */
  function Named(rows: Rows, userId: int, requestId: string): set<int> {
    set id | id in rows && rows[id].userId == userId && NameKey(rows[id].requestId) == NameKey(requestId)
  }

  /** The user has a row of this name that is spelled otherwise. */
  predicate SpelledOtherwise(rows: Rows, userId: int, requestId: string) {
    exists id :: id in Named(rows, userId, requestId) && rows[id].requestId != requestId
  }

  function RequestIdFor(request: ImageGeneration, builtId: string): string {
    if request.requestId == "" then builtId else request.requestId
  }

  predicate Bears(r: ImageGeneration, request: ImageGeneration) {
    r.userId == request.userId && NameKey(r.requestId) == NameKey(request.requestId)
  }

  /** No user's request id names two rows. */
  predicate NamesAreUnique(rows: Rows) {
    forall i, j :: i in rows && j in rows && Bears(rows[i], rows[j]) ==> i == j
  }

  lemma OneMoreName(rows: Rows, id: int, row: ImageGeneration)
    requires NamesAreUnique(rows) && Named(rows, row.userId, row.requestId) == {}
    ensures NamesAreUnique(rows[id := row])
  {
    forall i | i in rows && rows[i].userId == row.userId
      ensures NameKey(rows[i].requestId) != NameKey(row.requestId)
    {
      assert i !in Named(rows, row.userId, row.requestId);
    }
  }

  /** `since` is the id the next row would have got when the lookup found nothing. */
  datatype Creator =
    | FoundNone(request: ImageGeneration, since: int)
    | Answered(userId: int, requestId: string, id: int)

  datatype State = State(rows: Rows, nextId: int, creators: map<nat, Creator>)

  datatype Event =
    | LookUp(c: nat, request: ImageGeneration, found: int)
    | InsertRow(c: nat)
    | Change(id: int, st: Statement)
    | DeleteRow(id: int, userId: int)

  function Apply(s: State, e: Event): State {
    match e
    case LookUp(c, request, found) =>
      var named := Named(s.rows, request.userId, request.requestId);
      if c in s.creators then s
      else if named == {} then s.(creators := s.creators[c := FoundNone(request, s.nextId)])
      else if found in named then s.(creators := s.creators[c := Answered(request.userId, request.requestId, found)])
      else s
    case InsertRow(c) =>
      if c in s.creators && s.creators[c].FoundNone? then
        var request := s.creators[c].request;
        State(s.rows[s.nextId := Created(request, s.nextId)], s.nextId + 1,
              s.creators[c := Answered(request.userId, request.requestId, s.nextId)])
      else s
    case Change(id, st) => s.(rows := ExecuteOn(s.rows, id, st))
    case DeleteRow(id, userId) => if Deletable(s.rows, id, userId) then s.(rows := s.rows - {id}) else s
  }

  const Start := State(map[], 1, map[])

  /** The state after the first n events. */
  function At(events: seq<Event>, n: nat): State
    requires n <= |events|
  {
    if n == 0 then Start else Apply(At(events, n - 1), events[n - 1])
  }

  lemma NoneBears(rows: Rows, request: ImageGeneration)
    ensures Named(rows, request.userId, request.requestId) == {} <==>
            forall id :: id in rows ==> !Bears(rows[id], request)
  {
    var named := Named(rows, request.userId, request.requestId);
    assert (forall id :: id !in named) ==> named == {};
    assert forall id :: id in named <==> id in rows && Bears(rows[id], request);
  }

  /** Another create has put a row under this create's name since it looked, and the row is still
      there. */
  predicate Overtaken(s: State, c: nat) {
    && c in s.creators && s.creators[c].FoundNone?
    && exists id :: id in s.rows && s.creators[c].since <= id && Bears(s.rows[id], s.creators[c].request)
  }

  predicate InsertsOvertaken(s: State, e: Event) {
    e.InsertRow? && Overtaken(s, e.c)
  }

  /** What a create found missing can only have come since. */
  predicate Inv(s: State) {
    && (forall id :: id in s.rows ==> id < s.nextId)
    && (forall c :: c in s.creators && s.creators[c].FoundNone? ==> s.creators[c].since <= s.nextId)
    && (forall c, id :: c in s.creators && s.creators[c].FoundNone? && id in s.rows ==>
          Bears(s.rows[id], s.creators[c].request) ==> s.creators[c].since <= id)
    && (forall c :: c in s.creators && s.creators[c].Answered? ==>
          var a := s.creators[c];
          a.id < s.nextId && (a.id in s.rows ==> a.id in Named(s.rows, a.userId, a.requestId)))
  }

  lemma ChangeKeepsNames(rows: Rows, id: int, st: Statement)
    ensures var rows' := ExecuteOn(rows, id, st);
            && rows'.Keys == rows.Keys
            && (forall i :: i in rows ==> rows'[i].userId == rows[i].userId && rows'[i].requestId == rows[i].requestId)
    ensures NamesAreUnique(ExecuteOn(rows, id, st)) <==> NamesAreUnique(rows)
  {
    if id in rows {
      StatementFrame(rows[id], st);
    }
  }

  lemma ApplyKeepsInv(s: State, e: Event)
    requires Inv(s)
    ensures Inv(Apply(s, e))
  {
    match e
    case Change(id, st) => ChangeKeepsNames(s.rows, id, st);
    case LookUp(c, request, found) => LookUpKeepsInv(s, c, request, found);
    case InsertRow(c) => InsertKeepsInv(s, c);
    case DeleteRow(_, _) =>
  }

  lemma LookUpKeepsInv(s: State, c: nat, request: ImageGeneration, found: int)
    requires Inv(s)
    ensures Inv(Apply(s, LookUp(c, request, found)))
  {
    NoneBears(s.rows, request);
  }

  lemma InsertKeepsInv(s: State, c: nat)
    requires Inv(s)
    ensures Inv(Apply(s, InsertRow(c)))
  {
  }

  lemma {:induction false} AtInv(events: seq<Event>, n: nat)
    requires n <= |events|
    ensures Inv(At(events, n))
  {
    if n > 0 {
      AtInv(events, n - 1);
      ApplyKeepsInv(At(events, n - 1), events[n - 1]);
    }
  }

  /** Whatever interleaves, the row a create answers with has the name it asked for, up to letter
      case. */
  lemma AnswerBearsName(events: seq<Event>, n: nat, c: nat)
    requires n <= |events| && c in At(events, n).creators && At(events, n).creators[c].Answered?
    ensures var s := At(events, n);
            var a := s.creators[c];
            a.id in s.rows ==> a.id in Named(s.rows, a.userId, a.requestId)
  {
    AtInv(events, n);
  }

  /** The answer to a lookup, and the row of an insert, bear the very spelling that was asked for,
      whichever row the lookup comes up with, exactly when the user has no row of that name spelled
      otherwise when the create looks. */
  lemma AnswerBearsSpellingIffNoOther(s: State, c: nat, request: ImageGeneration)
    requires c !in s.creators
    ensures (forall found :: BearsSpelling(Apply(Apply(s, LookUp(c, request, found)), InsertRow(c)), c))
            <==> !SpelledOtherwise(s.rows, request.userId, request.requestId)
  {
    NoneBears(s.rows, request);
    if SpelledOtherwise(s.rows, request.userId, request.requestId) {
      var found :| found in Named(s.rows, request.userId, request.requestId)
                   && s.rows[found].requestId != request.requestId;
      assert !BearsSpelling(Apply(Apply(s, LookUp(c, request, found)), InsertRow(c)), c);
    }
  }

  /** A create that has answered did so with a row spelled as it asked. */
  predicate BearsSpelling(s: State, c: nat) {
    c in s.creators && s.creators[c].Answered? && s.creators[c].id in s.rows ==>
      s.rows[s.creators[c].id].requestId == s.creators[c].requestId
  }

  /** "ABC", then "abc": the second create answers with the first one's row and inserts none. */
  lemma OtherSpellingIsAnswered(request: ImageGeneration)
    ensures var upper, lower := request.(requestId := "ABC"), request.(requestId := "abc");
            var s := At([LookUp(1, upper, 0), InsertRow(1), LookUp(2, lower, 1), InsertRow(2)], 4);
            && s.rows == map[1 := Created(upper, 1)]
            && 2 in s.creators && s.creators[2] == Answered(request.userId, "abc", 1) && !BearsSpelling(s, 2)
  {
    var upper, lower := request.(requestId := "ABC"), request.(requestId := "abc");
    var events := [LookUp(1, upper, 0), InsertRow(1), LookUp(2, lower, 1), InsertRow(2)];
    assert Lower("ABC") == "abc" && Lower("abc") == "abc";
    assert At(events, 0) == Start;
    assert At(events, 1) == State(map[], 1, map[1 := FoundNone(upper, 1)]);
    var first := Answered(request.userId, "ABC", 1);
    assert At(events, 2) == State(map[1 := Created(upper, 1)], 2, map[1 := first]);
    assert Named(At(events, 2).rows, request.userId, "abc") == {1};
    assert At(events, 3) == State(map[1 := Created(upper, 1)], 2,
                                  map[1 := first, 2 := Answered(request.userId, "abc", 1)]);
  }

  /** A create that inserts right after its lookup is not overtaken. */
  lemma SerialCreateIsNotOvertaken(events: seq<Event>, n: nat, c: nat, request: ImageGeneration, found: int)
    requires n <= |events| && c !in At(events, n).creators
    ensures !InsertsOvertaken(Apply(At(events, n), LookUp(c, request, found)), InsertRow(c))
  {
    AtInv(events, n);
  }

  /** One event breaks the uniqueness of names exactly when it is the insert of an overtaken create. */
  lemma StepKeepsUniqueIffNotOvertaken(s: State, e: Event)
    requires Inv(s) && NamesAreUnique(s.rows)
    ensures NamesAreUnique(Apply(s, e).rows) <==> !InsertsOvertaken(s, e)
  {
    if e.Change? {
      ChangeKeepsNames(s.rows, e.id, e.st);
    } else if e.InsertRow? && e.c in s.creators && s.creators[e.c].FoundNone? {
      var request := s.creators[e.c].request;
      var row := Created(request, s.nextId);
      NoneBears(s.rows, request);
      if Named(s.rows, row.userId, row.requestId) == {} {
        OneMoreName(s.rows, s.nextId, row);
      } else {
        var id :| id in s.rows && Bears(s.rows[id], request);
        var rows' := Apply(s, e).rows;
        assert id in rows' && s.nextId in rows' && rows'[id].userId == rows'[s.nextId].userId;
        assert s.creators[e.c].since <= id;
      }
    }
  }

  /** No request id names two rows of a user in any of the first n states. */
  predicate UniqueUpTo(events: seq<Event>, n: nat)
    requires n <= |events|
  {
    NamesAreUnique(At(events, n).rows) && (n > 0 ==> UniqueUpTo(events, n - 1))
  }

  predicate NoneOvertakenUpTo(events: seq<Event>, n: nat)
    requires n <= |events|
  {
    n > 0 ==> !InsertsOvertaken(At(events, n - 1), events[n - 1]) && NoneOvertakenUpTo(events, n - 1)
  }

  /** In every run: no request id ever names two rows of a user exactly when no create inserts after
      another has put a row under the same name since its lookup. */
  lemma {:induction false} NamesStayUniqueIffNoneOvertaken(events: seq<Event>, n: nat)
    requires n <= |events|
    ensures UniqueUpTo(events, n) <==> NoneOvertakenUpTo(events, n)
  {
    if n > 0 {
      NamesStayUniqueIffNoneOvertaken(events, n - 1);
      AtInv(events, n - 1);
      if UniqueUpTo(events, n - 1) {
        StepKeepsUniqueIffNotOvertaken(At(events, n - 1), events[n - 1]);
      }
    }
  }

  lemma {:induction false} CreatorsStay(events: seq<Event>, c: nat, k: nat, n: nat)
    requires k <= n <= |events| && c in At(events, k).creators
    ensures c in At(events, n).creators
    ensures At(events, n).creators[c].FoundNone? ==> At(events, n).creators[c] == At(events, k).creators[c]
    decreases n
  {
    if k < n {
      CreatorsStay(events, c, k, n - 1);
    }
  }

  /** The row that overtakes a create was inserted by another one, between this one's lookup and its
      insert. */
  lemma OvertakerInsertedBetween(events: seq<Event>, c: nat, id: int, n: nat) returns (look: nat, ins: nat)
    requires n <= |events| && c in At(events, n).creators && At(events, n).creators[c].FoundNone?
    requires id in At(events, n).rows && At(events, n).creators[c].since <= id
    requires var request := At(events, n).creators[c].request;
             Bears(At(events, n).rows[id], request)
    ensures look < ins < n && events[look].LookUp? && events[look].c == c
    ensures events[look].request == At(events, n).creators[c].request
    ensures events[ins].InsertRow? && events[ins].c != c && At(events, ins).nextId == id
    ensures id !in At(events, ins).rows && id in At(events, ins + 1).rows
  {
    look := LookedUp(events, c, n);
    ins := InsertedAt(events, id, n);
    AtInv(events, look);
    if ins <= look {
      NextIdGrows(events, ins + 1, look);
      assert false;
    }
    CreatorsStay(events, c, look + 1, ins);
    if events[ins].c == c {
      CreatorsStay(events, c, ins + 1, n);
      assert false;
    }
  }

  lemma {:induction false} NextIdGrows(events: seq<Event>, k: nat, n: nat)
    requires k <= n <= |events|
    ensures At(events, k).nextId <= At(events, n).nextId
    decreases n
  {
    if k < n {
      NextIdGrows(events, k, n - 1);
    }
  }

  lemma {:induction false} LookedUp(events: seq<Event>, c: nat, n: nat) returns (k: nat)
    requires n <= |events| && c in At(events, n).creators && At(events, n).creators[c].FoundNone?
    ensures k < n && events[k].LookUp? && events[k].c == c && c !in At(events, k).creators
    ensures c in At(events, k + 1).creators && At(events, k + 1).creators[c] == At(events, n).creators[c]
    ensures At(events, n).creators[c] == FoundNone(events[k].request, At(events, k).nextId)
    decreases n
  {
    if c in At(events, n - 1).creators && At(events, n - 1).creators[c].FoundNone? {
      k := LookedUp(events, c, n - 1);
    } else {
      k := n - 1;
    }
  }

  lemma {:induction false} InsertedAt(events: seq<Event>, id: int, n: nat) returns (k: nat)
    requires n <= |events| && id in At(events, n).rows
    ensures k < n && events[k].InsertRow? && At(events, k).nextId == id
    ensures events[k].c in At(events, k).creators && At(events, k).creators[events[k].c].FoundNone?
    ensures id !in At(events, k).rows && id in At(events, k + 1).rows
    decreases n
  {
    AtInv(events, n - 1);
    if id in At(events, n - 1).rows {
      k := InsertedAt(events, id, n - 1);
    } else {
      k := n - 1;
    }
  }

  /** Two creates of one name that both look before either inserts leave two rows of that name. */
  lemma TwoCreatesOneName(request: ImageGeneration)
    ensures var s := At([LookUp(1, request, 0), LookUp(2, request, 0), InsertRow(1), InsertRow(2)], 4);
            Named(s.rows, request.userId, request.requestId) == {1, 2} && !NamesAreUnique(s.rows)
  {
    var events := [LookUp(1, request, 0), LookUp(2, request, 0), InsertRow(1), InsertRow(2)];
    var none := FoundNone(request, 1);
    assert At(events, 0) == Start;
    assert At(events, 1) == State(map[], 1, map[1 := none]);
    assert At(events, 2) == State(map[], 1, map[1 := none, 2 := none]);
    assert At(events, 3) == State(map[1 := Created(request, 1)], 2,
                                  map[1 := Answered(request.userId, request.requestId, 1), 2 := none]);
    var s := At(events, 4);
    assert s.rows == map[1 := Created(request, 1), 2 := Created(request, 2)];
    assert 1 in s.rows && 2 in s.rows && s.rows[1].requestId == s.rows[2].requestId;
  }
}
