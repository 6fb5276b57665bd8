/** The image service with its cache, one whole operation at a time, against the same service
    without a cache.

    Answers are compared up to the picture address, the picture bytes and the lease time, which the
    cache does not keep current.  Entries may vanish at any moment.  A client call that fails turns
    the cache off for good; the operation it interrupts then continues from the table, so it acts
    like one before or after CacheFails. */
module CachedService {
  import opened Wrappers
  import opened TaskStatus
  import opened ImageRows

  function View(g: ImageGeneration): ImageGeneration {
    g.(imageUrl := "", imageBytes := "", leaseExpiresAt := None)
  }

  /** Page number and size are as normalised: page >= 0 and size >= 1. */
  datatype Query = Query(filter: Option<Status>, page: nat, size: nat)

  function NormalizePage(page: int): nat { if page < 0 then 0 else page }

  function NormalizeSize(size: int): nat { if size <= 0 then 10 else size }

  datatype Listing = Listing(content: seq<ImageGeneration>, total: nat)

  type Views = map<int, ImageGeneration>

  function ViewsOf(rows: Rows, userId: int): Views {
    map id | id in rows && rows[id].userId == userId :: View(rows[id])
  }

  lemma GreatestExists(ids: set<int>)
    requires ids != {}
    ensures exists m :: m in ids && forall other :: other in ids ==> other <= m
  {
    assert (forall x :: x !in ids) ==> ids == {};
    var x :| x in ids;
    if ids != {x} {
      GreatestExists(ids - {x});
      var y :| y in ids - {x} && forall other :: other in ids - {x} ==> other <= y;
      var best := if x < y then y else x;
      assert forall other :: other in ids ==> other == x || other in ids - {x};
      assert best in ids;
    }
  }

  ghost function Greatest(ids: set<int>): (m: int)
    requires ids != {}
    ensures m in ids && forall other :: other in ids ==> other <= m
  {
    GreatestExists(ids);
    var m :| m in ids && forall other :: other in ids ==> other <= m;
    m
  }

  /** ORDER BY id DESC. */
  ghost function Descending(ids: set<int>): (r: seq<int>)
    ensures |r| == |ids|
    ensures forall id :: id in r <==> id in ids
    ensures forall i, j :: 0 <= i < j < |r| ==> r[i] > r[j]
  {
    if ids == {} then []
    else
      var m := Greatest(ids);
      var rest := Descending(ids - {m});
      assert forall id :: id in [m] + rest <==> id == m || id in rest;
      [m] + rest
  }

  function Selected(views: Views, q: Query): set<int> {
    set id | id in views && (q.filter.Some? ==> views[id].status == q.filter.value)
  }

  function Clip(n: nat, most: nat): nat { if n < most then n else most }

  /** Where a page starts: page * size, as OffsetIsProduct says. */
  function Offset(page: nat, size: nat): nat {
    if page == 0 then 0 else Offset(page - 1, size) + size
  }

  lemma {:induction false} OffsetIsProduct(page: nat, size: nat)
    ensures Offset(page, size) == page * size
  {
    if page > 0 {
      OffsetIsProduct(page - 1, size);
      assert page * size == (page - 1) * size + size;
    }
  }

  /** LIMIT size OFFSET offset, and the count over the whole list. */
  function Slice(views: Views, ids: seq<int>, offset: nat, size: nat): Listing {
    var from := Clip(offset, |ids|);
    Listing(Picked(views, ids[from..Clip(from + size, |ids|)]), |ids|)
  }

  ghost function PageOf(views: Views, q: Query): Listing {
    Slice(views, Descending(Selected(views, q)), Offset(q.page, q.size), q.size)
  }

  function Picked(views: Views, ids: seq<int>): (r: seq<ImageGeneration>)
    ensures |r| == |ids| && forall i :: 0 <= i < |ids| ==> r[i] == PickView(views, ids[i])
  {
    seq(|ids|, i requires 0 <= i < |ids| => PickView(views, ids[i]))
  }

  function PickView(views: Views, id: int): ImageGeneration {
    if id in views then views[id]
    else ImageGeneration(id, 0, "", Unknown, 0, 0, "", "", "", "", "", "", "", 0.0, 0, None, None, None, None)
  }

  datatype MetaEntry = NullMarker | Image(image: ImageGeneration)

  datatype ListKey = ListKey(userId: int, version: nat, query: Query)

  datatype Cache = Cache(meta: map<(int, int), MetaEntry>, lists: map<ListKey, Listing>, versions: map<int, nat>)

  /** No cache: never configured, or its client has failed. */
  datatype Service = Service(rows: Rows, nextId: int, cache: Option<Cache>)

  datatype Op =
    | GetById(userId: int, id: int)
    | ListMy(userId: int, query: Query)
    | Create(request: ImageGeneration)
    | UpdateTask(id: int, st: Statement)
    | Delete(id: int, userId: int)
    | Scan(now: int, reports: seq<(int, int)>)
    | EvictMeta(metaKey: (int, int))
    | EvictList(listKey: ListKey)
    | CacheFails
    | VersionKeyExpires(userId: int)

  datatype Answer = Found(image: ImageGeneration) | NotFound | Page(listing: Listing) | Silent

  function Version(c: Cache, userId: int): nat {
    if userId in c.versions then c.versions[userId] else 0
  }

  function Bumped(c: Cache, userId: int): Cache {
    c.(versions := c.versions[userId := Version(c, userId) + 1])
  }

  function Invalidated(c: Cache, userId: int, id: int): Cache {
    Bumped(c.(meta := c.meta - {(userId, id)}), userId)
  }

  function InvalidatedAll(c: Cache, reports: seq<(int, int)>): Cache
    decreases |reports|
  {
    if reports == [] then c
    else InvalidatedAll(Invalidated(c, reports[0].0, reports[0].1), reports[1..])
  }

  function OnCache(s: Service, change: Cache -> Cache): Service {
    if s.cache.Some? then s.(cache := Some(change(s.cache.value))) else s
  }

  predicate Owns(rows: Rows, userId: int, id: int) {
    id in rows && rows[id].userId == userId
  }

  function ReadRow(rows: Rows, userId: int, id: int): Answer {
    if Owns(rows, userId, id) then Found(View(rows[id])) else NotFound
  }

  function MetaAnswer(e: MetaEntry): Answer {
    if e.NullMarker? then NotFound else Found(View(e.image))
  }

  function EntryFor(rows: Rows, userId: int, id: int): MetaEntry {
    if Owns(rows, userId, id) then Image(rows[id]) else NullMarker
  }

  /** The scan reports, with their owners, exactly the rows it moves: its two clock readings agree. */
  predicate ReportsExactly(rows: Rows, now: int, reports: seq<(int, int)>) {
    && (forall i :: 0 <= i < |reports| ==>
          Owns(rows, reports[i].0, reports[i].1) && LeaseExpired(rows[reports[i].1], now))
    && (forall id :: id in rows && LeaseExpired(rows[id], now) ==> (rows[id].userId, id) in reports)
  }

  ghost function Step(s: Service, op: Op): (Service, Answer) {
    match op
    case GetById(userId, id) =>
      if s.cache.Some? && (userId, id) in s.cache.value.meta
      then (s, MetaAnswer(s.cache.value.meta[(userId, id)]))
      else (OnCache(s, (c: Cache) => c.(meta := c.meta[(userId, id) := EntryFor(s.rows, userId, id)])),
            ReadRow(s.rows, userId, id))
    case ListMy(userId, query) =>
      var page := PageOf(ViewsOf(s.rows, userId), query);
      if s.cache.None? then (s, Page(page))
      else
        var key := ListKey(userId, Version(s.cache.value, userId), query);
        if key in s.cache.value.lists then (s, Page(s.cache.value.lists[key]))
        else (s.(cache := Some(s.cache.value.(lists := s.cache.value.lists[key := page]))), Page(page))
    case Create(request) =>
      var row := Created(request, s.nextId);
      (OnCache(s.(rows := s.rows[s.nextId := row], nextId := s.nextId + 1),
               (c: Cache) => Bumped(c.(meta := c.meta[(row.userId, row.id) := Image(row)]), row.userId)), Silent)
    case UpdateTask(id, st) =>
      if id !in s.rows || !Matches(s.rows[id], st) then (s, Silent)
      else
        var updated := s.(rows := ExecuteOn(s.rows, id, st));
        (if st.RenewLease? then updated
         else OnCache(updated, (c: Cache) => Invalidated(c, s.rows[id].userId, id)), Silent)
    case Delete(id, userId) =>
      if Deletable(s.rows, id, userId)
      then (OnCache(s.(rows := s.rows - {id}), (c: Cache) => Invalidated(c, userId, id)), Silent)
      else (s, Silent)
    case Scan(now, reports) =>
      if ReportsExactly(s.rows, now, reports)
      then (OnCache(s.(rows := ExecuteAll(ExecuteAll(s.rows, RequeueExpired(now)), TimeOutExpired(now))),
                    (c: Cache) => InvalidatedAll(c, reports)), Silent)
      else (s, Silent)
    case EvictMeta(key) => (OnCache(s, (c: Cache) => c.(meta := c.meta - {key})), Silent)
    case EvictList(key) => (OnCache(s, (c: Cache) => c.(lists := c.lists - {key})), Silent)
    case CacheFails => (s.(cache := None), Silent)
    case VersionKeyExpires(userId) => (OnCache(s, (c: Cache) => c.(versions := c.versions - {userId})), Silent)
  }

  ghost function Answers(s: Service, ops: seq<Op>): (answers: seq<Answer>)
    ensures |answers| == |ops|
    decreases |ops|
  {
    if ops == [] then [] else [Step(s, ops[0]).1] + Answers(Step(s, ops[0]).0, ops[1..])
  }

  // ---- Coherence ----

  predicate MetaFits(rows: Rows, userId: int, id: int, e: MetaEntry) {
    if e.NullMarker? then !Owns(rows, userId, id)
    else Owns(rows, userId, id) && View(e.image) == View(rows[id])
  }

  ghost predicate ListFits(rows: Rows, c: Cache, key: ListKey) {
    && key.version <= Version(c, key.userId)
    && (key in c.lists && key.version == Version(c, key.userId) ==>
          c.lists[key] == PageOf(ViewsOf(rows, key.userId), key.query))
  }

  /** Null markers stand for absent rows only, cached rows and the current version's pages are those
      of the table, and no page is filed under a version yet to come. */
  ghost predicate Coherent(rows: Rows, c: Cache) {
    && (forall userId, id :: (userId, id) in c.meta ==> MetaFits(rows, userId, id, c.meta[(userId, id)]))
    && (forall key :: key in c.lists ==> ListFits(rows, c, key))
  }

  ghost predicate Ok(s: Service) {
    && (forall id :: id in s.rows ==> id < s.nextId)
    && (s.cache.Some? ==> Coherent(s.rows, s.cache.value))
  }

  /** A change of the table is absorbed when the entry of every row that looks different is gone and
      every user one of whose rows looks different has moved on to a new version. */
  lemma ChangeIsAbsorbed(rows: Rows, c: Cache, rows': Rows, c': Cache)
    requires Coherent(rows, c)
    requires c'.lists == c.lists
    requires forall userId :: Version(c, userId) <= Version(c', userId)
    requires forall userId, id :: (userId, id) in c'.meta ==>
               && (userId, id) in c.meta && c'.meta[(userId, id)] == c.meta[(userId, id)]
               && (Owns(rows', userId, id) <==> Owns(rows, userId, id))
               && (Owns(rows, userId, id) ==> View(rows'[id]) == View(rows[id]))
    requires forall userId :: Version(c', userId) == Version(c, userId) ==>
               ViewsOf(rows', userId) == ViewsOf(rows, userId)
    ensures Coherent(rows', c')
  {
    forall userId, id | (userId, id) in c'.meta
      ensures MetaFits(rows', userId, id, c'.meta[(userId, id)])
    {
      assert MetaFits(rows, userId, id, c.meta[(userId, id)]);
    }
    forall key | key in c'.lists
      ensures ListFits(rows', c', key)
    {
      assert ListFits(rows, c, key);
    }
  }

  lemma UpdateIsAbsorbed(s: Service, id: int, st: Statement)
    requires Ok(s) && s.cache.Some? && id in s.rows && Matches(s.rows[id], st)
    ensures Ok(Step(s, UpdateTask(id, st)).0)
  {
    var s' := Step(s, UpdateTask(id, st)).0;
    StatementFrame(s.rows[id], st);
    forall userId | userId != s.rows[id].userId || st.RenewLease?
      ensures ViewsOf(s'.rows, userId) == ViewsOf(s.rows, userId)
    {
    }
    ChangeIsAbsorbed(s.rows, s.cache.value, s'.rows, s'.cache.value);
  }

  lemma DeleteIsAbsorbed(s: Service, id: int, userId: int)
    requires Ok(s) && s.cache.Some? && Deletable(s.rows, id, userId)
    ensures Ok(Step(s, Delete(id, userId)).0)
  {
    var s' := Step(s, Delete(id, userId)).0;
    forall other | other != userId
      ensures ViewsOf(s'.rows, other) == ViewsOf(s.rows, other)
    {
    }
    ChangeIsAbsorbed(s.rows, s.cache.value, s'.rows, s'.cache.value);
  }

  lemma PutMetaKeepsCoherent(rows: Rows, c: Cache, userId: int, id: int, e: MetaEntry)
    requires Coherent(rows, c) && MetaFits(rows, userId, id, e)
    ensures Coherent(rows, c.(meta := c.meta[(userId, id) := e]))
  {
    forall key | key in c.lists
      ensures ListFits(rows, c.(meta := c.meta[(userId, id) := e]), key)
    {
      assert ListFits(rows, c, key);
    }
  }

  lemma CreateIsAbsorbed(s: Service, request: ImageGeneration)
    requires Ok(s) && s.cache.Some?
    ensures Ok(Step(s, Create(request)).0)
  {
    var row := Created(request, s.nextId);
    var rows' := s.rows[s.nextId := row];
    var c := s.cache.value;
    var swept := Bumped(c.(meta := c.meta - {(row.userId, row.id)}), row.userId);
    forall other | other != row.userId
      ensures ViewsOf(rows', other) == ViewsOf(s.rows, other)
    {
    }
    ChangeIsAbsorbed(s.rows, c, rows', swept);
    PutMetaKeepsCoherent(rows', swept, row.userId, row.id, Image(row));
    var c' := Bumped(c.(meta := c.meta[(row.userId, row.id) := Image(row)]), row.userId);
    assert c' == swept.(meta := swept.meta[(row.userId, row.id) := Image(row)]);
  }

  lemma {:induction false} SweepEffect(c: Cache, reports: seq<(int, int)>)
    ensures var c' := InvalidatedAll(c, reports);
            && c'.lists == c.lists
            && (forall k :: k in c'.meta ==> k in c.meta && k !in reports && c'.meta[k] == c.meta[k])
            && (forall userId :: Version(c, userId) <= Version(c', userId))
            && (forall k :: k in reports ==> Version(c, k.0) < Version(c', k.0))
    decreases |reports|
  {
    if reports != [] {
      SweepEffect(Invalidated(c, reports[0].0, reports[0].1), reports[1..]);
      assert forall k :: k in reports ==> k == reports[0] || k in reports[1..];
    }
  }

  lemma ScanFrame(rows: Rows, now: int, reports: seq<(int, int)>, id: int)
    requires ReportsExactly(rows, now, reports) && id in rows
    ensures var rows' := ExecuteAll(ExecuteAll(rows, RequeueExpired(now)), TimeOutExpired(now));
            && id in rows' && rows'[id].userId == rows[id].userId
            && ((rows[id].userId, id) !in reports ==> rows'[id] == rows[id])
  {
    StatementFrame(rows[id], RequeueExpired(now));
    StatementFrame(Execute(rows[id], RequeueExpired(now)), TimeOutExpired(now));
  }

  lemma ScanIsAbsorbed(s: Service, now: int, reports: seq<(int, int)>)
    requires Ok(s) && s.cache.Some? && ReportsExactly(s.rows, now, reports)
    ensures Ok(Step(s, Scan(now, reports)).0)
  {
    var s' := Step(s, Scan(now, reports)).0;
    var c, c' := s.cache.value, s'.cache.value;
    SweepEffect(c, reports);
    forall id | id in s.rows
      ensures id in s'.rows && s'.rows[id].userId == s.rows[id].userId
      ensures (s.rows[id].userId, id) !in reports ==> s'.rows[id] == s.rows[id]
    {
      ScanFrame(s.rows, now, reports, id);
    }
    forall userId | Version(c', userId) == Version(c, userId)
      ensures ViewsOf(s'.rows, userId) == ViewsOf(s.rows, userId)
    {
      forall id | id in s.rows && s.rows[id].userId == userId
        ensures s'.rows[id] == s.rows[id]
      {
        assert (userId, id) in reports ==> Version(c, (userId, id).0) < Version(c', (userId, id).0);
      }
    }
    ChangeIsAbsorbed(s.rows, c, s'.rows, c');
  }

  lemma ReadsKeepOk(s: Service, op: Op)
    requires Ok(s) && (op.GetById? || op.ListMy?)
    ensures Ok(Step(s, op).0) && Step(s, op).1 == Step(s.(cache := None), op).1
  {
    if s.cache.Some? {
      var c := s.cache.value;
      if op.GetById? && (op.userId, op.id) in c.meta {
        assert MetaFits(s.rows, op.userId, op.id, c.meta[(op.userId, op.id)]);
      } else if op.GetById? {
        var c' := Step(s, op).0.cache.value;
        forall key | key in c'.lists
          ensures ListFits(s.rows, c', key)
        {
          assert ListFits(s.rows, c, key);
        }
      } else {
        var key := ListKey(op.userId, Version(c, op.userId), op.query);
        var c' := Step(s, op).0.cache.value;
        if key in c.lists {
          assert ListFits(s.rows, c, key);
        }
        forall k | k in c'.lists
          ensures ListFits(s.rows, c', k)
        {
          if k in c.lists {
            assert ListFits(s.rows, c, k);
          }
        }
      }
    }
  }

  lemma EvictionsKeepOk(s: Service, op: Op)
    requires Ok(s) && (op.EvictMeta? || op.EvictList? || op.CacheFails?)
    ensures Ok(Step(s, op).0)
  {
    if s.cache.Some? && !op.CacheFails? {
      var c := s.cache.value;
      var c' := Step(s, op).0.cache.value;
      forall k | k in c'.lists
        ensures ListFits(s.rows, c', k)
      {
        assert ListFits(s.rows, c, k);
      }
    }
  }

  /** A version key may run out when everything still cached for the user is what a user without
      bumps would have cached: current pages of version zero. */
  ghost predicate ExpiryIsHarmless(s: Service, userId: int) {
    s.cache.Some? ==>
      forall key :: key in s.cache.value.lists && key.userId == userId ==>
        key.version == 0 && s.cache.value.lists[key] == PageOf(ViewsOf(s.rows, userId), key.query)
  }

  /** The expiry leaves the cache coherent exactly then. */
  lemma ExpiryKeepsOkIffHarmless(s: Service, userId: int)
    requires Ok(s)
    ensures Ok(Step(s, VersionKeyExpires(userId)).0) <==> ExpiryIsHarmless(s, userId)
  {
    if s.cache.Some? {
      var c, c' := s.cache.value, Step(s, VersionKeyExpires(userId)).0.cache.value;
      assert forall other :: Version(c', other) == if other == userId then 0 else Version(c, other);
      forall key | key in c.lists
        ensures ListFits(s.rows, c', key) <==>
                key.userId == userId ==> key.version == 0 && c.lists[key] == PageOf(ViewsOf(s.rows, userId), key.query)
      {
        assert ListFits(s.rows, c, key);
      }
      if ExpiryIsHarmless(s, userId) {
        assert forall key :: key in c'.lists ==> ListFits(s.rows, c', key);
      } else if Ok(Step(s, VersionKeyExpires(userId)).0) {
        assert forall key :: key in c'.lists ==> ListFits(s.rows, c', key);
        assert false;
      }
    }
  }

  ghost predicate IsHarmless(s: Service, op: Op) {
    op.VersionKeyExpires? ==> ExpiryIsHarmless(s, op.userId)
  }

  /** Every expiry in the run is harmless when it happens. */
  ghost predicate HarmlessRun(s: Service, ops: seq<Op>)
    decreases |ops|
  {
    ops == [] || (IsHarmless(s, ops[0]) && HarmlessRun(Step(s, ops[0]).0, ops[1..]))
  }

  /** One operation: the answer and the table are those of the service without a cache. */
  lemma StepAgrees(s: Service, op: Op)
    requires Ok(s) && IsHarmless(s, op)
    ensures Ok(Step(s, op).0)
    ensures Step(s, op).1 == Step(s.(cache := None), op).1
    ensures Step(s, op).0.(cache := None) == Step(s.(cache := None), op).0
  {
    match op
    case GetById(_, _) => ReadsKeepOk(s, op);
    case ListMy(_, _) => ReadsKeepOk(s, op);
    case Create(request) => if s.cache.Some? { CreateIsAbsorbed(s, request); }
    case UpdateTask(id, st) =>
      if s.cache.Some? && id in s.rows && Matches(s.rows[id], st) { UpdateIsAbsorbed(s, id, st); }
    case Delete(id, userId) => if s.cache.Some? && Deletable(s.rows, id, userId) { DeleteIsAbsorbed(s, id, userId); }
    case Scan(now, reports) =>
      if s.cache.Some? && ReportsExactly(s.rows, now, reports) { ScanIsAbsorbed(s, now, reports); }
    case EvictMeta(_) => EvictionsKeepOk(s, op);
    case EvictList(_) => EvictionsKeepOk(s, op);
    case CacheFails => EvictionsKeepOk(s, op);
    case VersionKeyExpires(userId) => ExpiryKeepsOkIffHarmless(s, userId);
  }

  /** Every sequence of whole operations is answered as if there were no cache, whatever vanishes
      from the cache on the way and whenever its client fails, as long as version keys run out only
      when that is harmless. */
  lemma {:induction false} CacheIsInvisible(s: Service, ops: seq<Op>)
    requires Ok(s) && HarmlessRun(s, ops)
    ensures Answers(s, ops) == Answers(s.(cache := None), ops)
    decreases |ops|
  {
    if ops != [] {
      StepAgrees(s, ops[0]);
      CacheIsInvisible(Step(s, ops[0]).0, ops[1..]);
    }
  }

  const FreshService := Service(map[], 1, Some(Cache(map[], map[], map[])))

  /** In particular from the empty table and the empty cache. */
  lemma FreshServiceIsInvisible(ops: seq<Op>)
    requires HarmlessRun(FreshService, ops)
    ensures Answers(FreshService, ops) == Answers(FreshService.(cache := None), ops)
  {
    CacheIsInvisible(FreshService, ops);
  }

  // ---- What the version key's lifetime costs ----

  lemma TotalCounts(views: Views, q: Query)
    requires q.filter.None?
    ensures PageOf(views, q).total == |views.Keys|
  {
    assert Selected(views, q) == views.Keys;
  }

  lemma CreatedViewIsNew(s: Service, request: ImageGeneration)
    requires forall id :: id in s.rows ==> id < s.nextId
    ensures s.nextId !in s.rows
    ensures ViewsOf(s.rows[s.nextId := Created(request, s.nextId)], request.userId).Keys
            == ViewsOf(s.rows, request.userId).Keys + {s.nextId}
  {
  }

  lemma CreateAddsOneView(s: Service, request: ImageGeneration, q: Query)
    requires (forall id :: id in s.rows ==> id < s.nextId) && q.filter.None?
    ensures PageOf(ViewsOf(Step(s, Create(request)).0.rows, request.userId), q).total
            == PageOf(ViewsOf(s.rows, request.userId), q).total + 1
  {
    var before, after := ViewsOf(s.rows, request.userId), ViewsOf(Step(s, Create(request)).0.rows, request.userId);
    CreatedViewIsNew(s, request);
    TotalCounts(before, q);
    TotalCounts(after, q);
  }

  lemma ReadFilesPage(s: Service, userId: int, q: Query)
    requires Ok(s) && s.cache.Some?
    ensures var s' := Step(s, ListMy(userId, q)).0;
            && s'.cache.Some? && s'.rows == s.rows && s'.nextId == s.nextId
            && s'.cache.value.versions == s.cache.value.versions
            && var key := ListKey(userId, Version(s.cache.value, userId), q);
               key in s'.cache.value.lists && s'.cache.value.lists[key] == PageOf(ViewsOf(s.rows, userId), q)
  {
    var key := ListKey(userId, Version(s.cache.value, userId), q);
    if key in s.cache.value.lists {
      assert ListFits(s.rows, s.cache.value, key);
    }
  }

  ghost function CreateAll(s: Service, requests: seq<ImageGeneration>): Service
    decreases |requests|
  {
    if requests == [] then s else CreateAll(Step(s, Create(requests[0])).0, requests[1..])
  }

  predicate AllFrom(requests: seq<ImageGeneration>, userId: int) {
    forall i :: 0 <= i < |requests| ==> requests[i].userId == userId
  }

  /** Each create adds one row to the list and one to the version, and drops no page. */
  lemma {:induction false} CreatesAddUp(s: Service, requests: seq<ImageGeneration>, userId: int, q: Query)
    requires (forall id :: id in s.rows ==> id < s.nextId) && s.cache.Some?
    requires q.filter.None? && AllFrom(requests, userId)
    ensures var s' := CreateAll(s, requests);
            && s'.cache.Some? && s'.cache.value.lists == s.cache.value.lists
            && Version(s'.cache.value, userId) == Version(s.cache.value, userId) + |requests|
            && PageOf(ViewsOf(s'.rows, userId), q).total == PageOf(ViewsOf(s.rows, userId), q).total + |requests|
    decreases |requests|
  {
    if requests != [] {
      CreateAddsOne(s, requests[0], q);
      CreatesAddUp(Step(s, Create(requests[0])).0, requests[1..], userId, q);
    }
  }

  lemma CreateAddsOne(s: Service, request: ImageGeneration, q: Query)
    requires (forall id :: id in s.rows ==> id < s.nextId) && s.cache.Some? && q.filter.None?
    ensures var s' := Step(s, Create(request)).0;
            && (forall id :: id in s'.rows ==> id < s'.nextId)
            && s'.cache.Some? && s'.cache.value.lists == s.cache.value.lists
            && Version(s'.cache.value, request.userId) == Version(s.cache.value, request.userId) + 1
            && PageOf(ViewsOf(s'.rows, request.userId), q).total
               == PageOf(ViewsOf(s.rows, request.userId), q).total + 1
  {
    CreateAddsOneView(s, request, q);
  }

  /** If a user's version key runs out while a page of some version is still cached, and that version
      is not zero, the count starts over: after as many creates as the version, the old page is served
      again, without any of them. */
  lemma ExpiredVersionKeyRevivesOldPages(s: Service, userId: int, q: Query, requests: seq<ImageGeneration>)
    requires Ok(s) && s.cache.Some? && Version(s.cache.value, userId) == |requests| > 0
    requires q.filter.None? && AllFrom(requests, userId)
    ensures var read := Step(s, ListMy(userId, q)).0;
            var written := CreateAll(Step(read, VersionKeyExpires(userId)).0, requests);
            var answer, truth := Step(written, ListMy(userId, q)).1, Step(written.(cache := None), ListMy(userId, q)).1;
            answer.Page? && truth.Page? && answer.listing.total + |requests| == truth.listing.total
    ensures !ExpiryIsHarmless(Step(s, ListMy(userId, q)).0, userId)
  {
    ReadFilesPage(s, userId, q);
    var read := Step(s, ListMy(userId, q)).0;
    var expired := Step(read, VersionKeyExpires(userId)).0;
    assert Version(expired.cache.value, userId) == 0 && expired.rows == s.rows;
    CreatesAddUp(expired, requests, userId, q);
    var key := ListKey(userId, |requests|, q);
    assert key in read.cache.value.lists;
  }

  // ---- Pages ----

  /** The content of pages 0 up to but not including n. */
  ghost function ContentUpTo(views: Views, filter: Option<Status>, size: nat, n: nat): seq<ImageGeneration> {
    if n == 0 then [] else ContentUpTo(views, filter, size, n - 1) + PageOf(views, Query(filter, n - 1, size)).content
  }

  /** The whole list in its order. */
  ghost function ListIds(views: Views, filter: Option<Status>): seq<int> {
    Descending(Selected(views, Query(filter, 0, 1)))
  }

  function Before(ids: seq<int>, offset: nat): seq<int> {
    ids[..Clip(offset, |ids|)]
  }

  lemma NextPageExtends(views: Views, ids: seq<int>, offset: nat, size: nat)
    ensures Picked(views, Before(ids, offset)) + Slice(views, ids, offset, size).content
            == Picked(views, Before(ids, offset + size))
  {
  }

  lemma PageIsSlice(views: Views, q: Query)
    ensures PageOf(views, q) == Slice(views, ListIds(views, q.filter), Offset(q.page, q.size), q.size)
  {
    assert Selected(views, q) == Selected(views, Query(q.filter, 0, 1));
  }

  /** Pages are stretches of this list. */
  ghost predicate CutsUpTo(views: Views, filter: Option<Status>, size: nat, ids: seq<int>, n: nat) {
    forall k: nat :: k < n ==>
      PageOf(views, Query(filter, k, size)).content == Slice(views, ids, Offset(k, size), size).content
  }

  lemma {:induction false} StretchesTile(views: Views, filter: Option<Status>, size: nat, ids: seq<int>, n: nat)
    requires CutsUpTo(views, filter, size, ids, n)
    ensures ContentUpTo(views, filter, size, n) == Picked(views, Before(ids, Offset(n, size)))
  {
    if n == 0 {
      assert Before(ids, 0) == [];
    } else {
      StretchesTile(views, filter, size, ids, n - 1);
      NextPageExtends(views, ids, Offset(n - 1, size), size);
    }
  }

  /** The pages of a list, read one after another, are the whole list, newest first, and every page
      reports the length of the whole. */
  lemma PagesTileTheList(views: Views, filter: Option<Status>, size: nat, n: nat)
    ensures ContentUpTo(views, filter, size, n) == Picked(views, Before(ListIds(views, filter), Offset(n, size)))
    ensures PageOf(views, Query(filter, n, size)).total == |ListIds(views, filter)|
  {
    var ids := ListIds(views, filter);
    forall k: nat
      ensures PageOf(views, Query(filter, k, size)) == Slice(views, ids, Offset(k, size), size)
    {
      PageIsSlice(views, Query(filter, k, size));
    }
    StretchesTile(views, filter, size, ids, n);
  }

  // ---- What a page shows ----

  /** A row up to what the cache does not keep current. */
  predicate ShowsRow(shown: ImageGeneration, row: ImageGeneration) {
    shown == row.(imageUrl := shown.imageUrl, imageBytes := shown.imageBytes, leaseExpiresAt := shown.leaseExpiresAt)
  }

  predicate IsAsked(r: ImageGeneration, userId: int, filter: Option<Status>) {
    r.userId == userId && (filter.Some? ==> r.status == filter.value)
  }

  /** The newer ones of a user's rows, of one status if one is asked for. */
  function Newer(rows: Rows, userId: int, filter: Option<Status>, id: int): set<int> {
    set other | other in rows && IsAsked(rows[other], userId, filter) && other > id
  }

  ghost predicate ShowsAsked(rows: Rows, userId: int, filter: Option<Status>, content: seq<ImageGeneration>) {
    forall i :: 0 <= i < |content| ==>
      && content[i].id in rows && IsAsked(rows[content[i].id], userId, filter)
      && ShowsRow(content[i], rows[content[i].id])
  }

  ghost predicate ShowsId(content: seq<ImageGeneration>, id: int) {
    exists i :: 0 <= i < |content| && content[i].id == id
  }

  /** A page is the rows that were asked for with at least page * size, and less than one page more,
      newer ones among them; newest first; and it counts all that were asked for. */
  ghost predicate ShowsPage(rows: Rows, userId: int, filter: Option<Status>, page: nat, size: nat, shown: Listing) {
    && shown.total == |set id | id in rows && IsAsked(rows[id], userId, filter)|
    && ShowsAsked(rows, userId, filter, shown.content)
    && (forall i, j :: 0 <= i < j < |shown.content| ==> shown.content[i].id > shown.content[j].id)
    && (forall id :: id in rows && IsAsked(rows[id], userId, filter) ==>
          (ShowsId(shown.content, id)
           <==> page * size <= |Newer(rows, userId, filter, id)| < page * size + size))
  }

  function Above(ids: set<int>, floor: int): set<int> {
    set id | id in ids && id > floor
  }

  /** In a falling list, as many are above an entry as come before it. */
  lemma {:induction false} RankInList(ids: set<int>, list: seq<int>, i: nat)
    requires i < |list| && (forall id :: id in list <==> id in ids)
    requires forall j, k :: 0 <= j < k < |list| ==> list[j] > list[k]
    ensures |Above(ids, list[i])| == i
  {
    if i == 0 {
      assert forall id :: id in Above(ids, list[0]) ==> id in list;
      assert Above(ids, list[0]) == {};
    } else {
      RankInList(ids, list, i - 1);
      AboveNext(ids, list, i);
    }
  }

  lemma AboveNext(ids: set<int>, list: seq<int>, i: nat)
    requires 0 < i < |list| && (forall id :: id in list <==> id in ids)
    requires forall j, k :: 0 <= j < k < |list| ==> list[j] > list[k]
    ensures Above(ids, list[i]) == Above(ids, list[i - 1]) + {list[i - 1]}
  {
    assert list[i - 1] in list;
    forall id | id in Above(ids, list[i])
      ensures id >= list[i - 1]
    {
      assert id in list;
    }
  }

  /** Which positions of the list a page takes. */
  lemma SlicePositions(views: Views, ids: seq<int>, offset: nat, size: nat)
    ensures var content := Slice(views, ids, offset, size).content;
            && (forall i :: 0 <= i < |content| ==> offset + i < |ids| && i < size
                                                   && content[i] == PickView(views, ids[offset + i]))
            && |content| == (if |ids| <= offset then 0 else if |ids| - offset < size then |ids| - offset else size)
  {
  }

  /** The list a page is cut from, and where the cut begins. */
  ghost predicate CutFrom(rows: Rows, userId: int, q: Query, ids: seq<int>, offset: nat) {
    ids == Descending(Selected(ViewsOf(rows, userId), q)) && offset == Offset(q.page, q.size)
  }

  lemma ListedIsAsked(rows: Rows, userId: int, q: Query, ids: seq<int>, offset: nat)
    requires CutFrom(rows, userId, q, ids, offset)
    ensures forall id :: id in ids <==> id in rows && IsAsked(rows[id], userId, q.filter)
    ensures forall id :: id in ids ==> PickView(ViewsOf(rows, userId), id) == View(rows[id])
  {
  }

  lemma ShownAt(rows: Rows, userId: int, q: Query, ids: seq<int>, offset: nat, i: nat)
    requires IdsMatch(rows) && CutFrom(rows, userId, q, ids, offset)
    requires i < |PageOf(ViewsOf(rows, userId), q).content|
    ensures offset + i < |ids| && i < q.size && ids[offset + i] in rows
    ensures IsAsked(rows[ids[offset + i]], userId, q.filter)
    ensures PageOf(ViewsOf(rows, userId), q).content[i] == View(rows[ids[offset + i]])
    ensures PageOf(ViewsOf(rows, userId), q).content[i].id == ids[offset + i]
  {
    SlicePositions(ViewsOf(rows, userId), ids, offset, q.size);
    ListedIsAsked(rows, userId, q, ids, offset);
    assert ids[offset + i] in ids;
  }

  /** The content carries the ids of a stretch of the list. */
  predicate IsStretch(content: seq<ImageGeneration>, ids: seq<int>, offset: nat, size: nat) {
    && |content| == (if |ids| <= offset then 0 else if |ids| - offset < size then |ids| - offset else size)
    && forall i :: 0 <= i < |content| ==> content[i].id == ids[offset + i]
  }

  lemma ContentIsStretch(rows: Rows, userId: int, q: Query, ids: seq<int>, offset: nat)
    requires IdsMatch(rows) && CutFrom(rows, userId, q, ids, offset)
    ensures IsStretch(PageOf(ViewsOf(rows, userId), q).content, ids, offset, q.size)
  {
    var content := PageOf(ViewsOf(rows, userId), q).content;
    SlicePositions(ViewsOf(rows, userId), ids, offset, q.size);
    forall i | 0 <= i < |content|
      ensures content[i].id == ids[offset + i]
    {
      ShownAt(rows, userId, q, ids, offset, i);
    }
  }

  lemma StretchShows(content: seq<ImageGeneration>, ids: seq<int>, offset: nat, size: nat, k: nat)
    requires IsStretch(content, ids, offset, size) && k < |ids|
    requires forall i, j :: 0 <= i < j < |ids| ==> ids[i] > ids[j]
    ensures ShowsId(content, ids[k]) <==> offset <= k < offset + size
    ensures forall i, j :: 0 <= i < j < |content| ==> content[i].id > content[j].id
  {
    if offset <= k < offset + size {
      assert content[k - offset].id == ids[k];
    }
  }

  lemma RowIsShown(rows: Rows, userId: int, q: Query, ids: seq<int>, offset: nat, id: int)
    requires IdsMatch(rows) && CutFrom(rows, userId, q, ids, offset)
    requires id in rows && IsAsked(rows[id], userId, q.filter)
    ensures var content := PageOf(ViewsOf(rows, userId), q).content;
            ShowsId(content, id)
            <==> q.page * q.size <= |Newer(rows, userId, q.filter, id)| < q.page * q.size + q.size
  {
    var asked := Selected(ViewsOf(rows, userId), q);
    OffsetIsProduct(q.page, q.size);
    ListedIsAsked(rows, userId, q, ids, offset);
    assert id in ids;
    var k :| 0 <= k < |ids| && ids[k] == id;
    RankInList(asked, ids, k);
    assert Newer(rows, userId, q.filter, id) == Above(asked, ids[k]);
    ContentIsStretch(rows, userId, q, ids, offset);
    StretchShows(PageOf(ViewsOf(rows, userId), q).content, ids, offset, q.size, k);
  }

  lemma ShownRow(rows: Rows, userId: int, q: Query, ids: seq<int>, offset: nat, i: nat)
    requires IdsMatch(rows) && CutFrom(rows, userId, q, ids, offset)
    requires i < |PageOf(ViewsOf(rows, userId), q).content|
    ensures var g := PageOf(ViewsOf(rows, userId), q).content[i];
            g.id in rows && IsAsked(rows[g.id], userId, q.filter) && ShowsRow(g, rows[g.id])
  {
    ShownAt(rows, userId, q, ids, offset, i);
  }

  lemma PageCountsAll(rows: Rows, userId: int, q: Query)
    ensures PageOf(ViewsOf(rows, userId), q).total
            == |set id | id in rows && IsAsked(rows[id], userId, q.filter)|
  {
    var asked := Selected(ViewsOf(rows, userId), q);
    forall id
      ensures id in asked <==> id in rows && IsAsked(rows[id], userId, q.filter)
    {
    }
    assert asked == (set id | id in rows && IsAsked(rows[id], userId, q.filter));
  }

  lemma PageShowsAsked(rows: Rows, userId: int, q: Query, ids: seq<int>, offset: nat)
    requires IdsMatch(rows) && CutFrom(rows, userId, q, ids, offset)
    ensures ShowsAsked(rows, userId, q.filter, PageOf(ViewsOf(rows, userId), q).content)
  {
    var content := PageOf(ViewsOf(rows, userId), q).content;
    forall i: nat | i < |content|
      ensures content[i].id in rows && IsAsked(rows[content[i].id], userId, q.filter)
      ensures ShowsRow(content[i], rows[content[i].id])
    {
      ShownRow(rows, userId, q, ids, offset, i);
    }
  }

  lemma PageFalls(rows: Rows, userId: int, q: Query, ids: seq<int>, offset: nat)
    requires IdsMatch(rows) && CutFrom(rows, userId, q, ids, offset)
    ensures var content := PageOf(ViewsOf(rows, userId), q).content;
            forall i, j :: 0 <= i < j < |content| ==> content[i].id > content[j].id
  {
    ContentIsStretch(rows, userId, q, ids, offset);
    if ids != [] {
      StretchShows(PageOf(ViewsOf(rows, userId), q).content, ids, offset, q.size, 0);
    }
  }

  lemma PageShows(rows: Rows, userId: int, q: Query)
    requires IdsMatch(rows)
    ensures ShowsPage(rows, userId, q.filter, q.page, q.size, PageOf(ViewsOf(rows, userId), q))
  {
    var ids, offset := Descending(Selected(ViewsOf(rows, userId), q)), Offset(q.page, q.size);
    PageCountsAll(rows, userId, q);
    PageShowsAsked(rows, userId, q, ids, offset);
    PageFalls(rows, userId, q, ids, offset);
    forall id | id in rows && IsAsked(rows[id], userId, q.filter)
      ensures ShowsId(PageOf(ViewsOf(rows, userId), q).content, id)
              <==> q.page * q.size <= |Newer(rows, userId, q.filter, id)| < q.page * q.size + q.size
    {
      RowIsShown(rows, userId, q, ids, offset, id);
    }
  }
}
