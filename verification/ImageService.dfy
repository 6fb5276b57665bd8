/** The service's operations over its cache client, call by call.  Each client call is given its
    fate; the contracts say that no fate shows in an answer and that the cache stays coherent or
    stays off. */
module ImageService {
  import opened Wrappers
  import opened TaskStatus
  import opened ImageRows
  import opened CachedService
  import opened ConcurrentCreates

  /** A call works, or fails after Redis did or did not do what it was asked. */
  datatype Fate = Works | Fails(applied: bool)

  class RedisCacheClient {
    var available: bool
    var meta: map<(int, int), MetaEntry>
    var lists: map<ListKey, Listing>
    var versions: map<int, nat>

    constructor (connected: bool)
      ensures available == connected && State() == Cache(map[], map[], map[])
    {
      available, meta, lists, versions := connected, map[], map[], map[];
    }

    function State(): Cache
      reads this
    {
      Cache(meta, lists, versions)
    }

    method GetMeta(key: (int, int), fate: Fate) returns (value: Option<MetaEntry>)
      modifies this`available
      ensures available <==> old(available) && fate.Works?
      ensures value == if available && key in meta then Some(meta[key]) else None
    {
      if !available {
        return None;
      }
      if fate.Fails? {
        available := false;
        return None;
      }
      value := if key in meta then Some(meta[key]) else None;
    }

    method SetexMeta(key: (int, int), value: MetaEntry, fate: Fate)
      modifies this`available, this`meta
      ensures available <==> old(available) && fate.Works?
      ensures available ==> meta == old(meta)[key := value]
    {
      if !available {
        return;
      }
      if fate.Works? || fate.applied {
        meta := meta[key := value];
      }
      available := fate.Works?;
    }

    method DelMeta(key: (int, int), fate: Fate)
      modifies this`available, this`meta
      ensures available <==> old(available) && fate.Works?
      ensures available ==> meta == old(meta) - {key}
    {
      if !available {
        return;
      }
      if fate.Works? || fate.applied {
        meta := meta - {key};
      }
      available := fate.Works?;
    }

    method GetList(key: ListKey, fate: Fate) returns (value: Option<Listing>)
      modifies this`available
      ensures available <==> old(available) && fate.Works?
      ensures value == if available && key in lists then Some(lists[key]) else None
    {
      if !available {
        return None;
      }
      if fate.Fails? {
        available := false;
        return None;
      }
      value := if key in lists then Some(lists[key]) else None;
    }

    method SetexList(key: ListKey, value: Listing, fate: Fate)
      modifies this`available, this`lists
      ensures available <==> old(available) && fate.Works?
      ensures available ==> lists == old(lists)[key := value]
    {
      if !available {
        return;
      }
      if fate.Works? || fate.applied {
        lists := lists[key := value];
      }
      available := fate.Works?;
    }

    method BumpVersion(userId: int, fate: Fate) returns (version: Option<nat>)
      modifies this`available, this`versions
      ensures available <==> old(available) && fate.Works?
      ensures available ==>
                && meta == old(meta) && lists == old(lists) && version.Some?
                && versions == old(versions)[userId := version.value]
                && version.value == (if userId in old(versions) then old(versions)[userId] else 0) + 1
      ensures !available ==> version == None
    {
      if !available {
        return None;
      }
      var next := (if userId in versions then versions[userId] else 0) + 1;
      if fate.Works? || fate.applied {
        versions := versions[userId := next];
      }
      available := fate.Works?;
      version := if fate.Works? then Some(next) else None;
    }

    /** Zero stands both for a key never bumped and for no answer. */
    method GetVersion(userId: int, fate: Fate) returns (version: nat)
      modifies this`available
      ensures available <==> old(available) && fate.Works?
      ensures version == if available && userId in versions then versions[userId] else 0
    {
      if !available {
        return 0;
      }
      if fate.Fails? {
        available := false;
        return 0;
      }
      version := if userId in versions then versions[userId] else 0;
    }
  }

  predicate IsGreatest(m: int, ids: set<int>) {
    m in ids && forall other :: other in ids ==> other <= m
  }

  lemma DescendingStep(fetched: seq<int>, left: set<int>, m: int)
    requires IsGreatest(m, left)
    ensures fetched + Descending(left) == fetched + [m] + Descending(left - {m})
  {
    assert Descending(left) == [m] + Descending(left - {m});
  }

  lemma SomeGreatest(ids: set<int>)
    requires ids != {}
    ensures exists m :: IsGreatest(m, ids)
  {
    GreatestExists(ids);
    var m :| m in ids && forall other :: other in ids ==> other <= m;
    assert IsGreatest(m, ids);
  }

  method PickGreatest(ids: set<int>) returns (m: int)
    requires ids != {}
    ensures IsGreatest(m, ids)
  {
    SomeGreatest(ids);
    m :| m in ids && IsGreatest(m, ids);
  }

  method FetchDescending(ids: set<int>) returns (fetched: seq<int>)
    ensures fetched == Descending(ids)
  {
    fetched := [];
    var left := ids;
    while left != {}
      invariant fetched + Descending(left) == Descending(ids)
      decreases |left|
    {
      var m := PickGreatest(left);
      DescendingStep(fetched, left, m);
      fetched, left := fetched + [m], left - {m};
    }
    assert fetched + [] == fetched;
  }

  datatype ServiceError = Unauthorized | Invalid | NoSuchTask | NotAllowed | Conflict | TooManyActive

  function Unfinished(rows: Rows, userId: int): (ids: set<int>)
    ensures ids == set id | id in rows && rows[id].userId == userId && rows[id].status in {Queued, Pending, Generating}
  {
    set id | id in rows && rows[id].userId == userId && (Waiting(rows[id]) || rows[id].status.Generating?)
  }

  function CachedRow(c: Cache, row: ImageGeneration): Cache {
    Bumped(c.(meta := c.meta[(row.userId, row.id) := Image(row)]), row.userId)
  }

  lemma CreatedIsCoherent(s: Service, generation: ImageGeneration)
    requires CachedService.Ok(s) && s.cache.Some?
    ensures var row := Created(generation, s.nextId);
            Coherent(s.rows[row.id := row], CachedRow(s.cache.value, row))
  {
    StepAgrees(s, Create(generation));
  }

  lemma UpdatedIsCoherent(s: Service, id: int, st: Statement)
    requires CachedService.Ok(s) && s.cache.Some? && id in s.rows && Matches(s.rows[id], st)
    ensures Coherent(ExecuteOn(s.rows, id, st),
                     if st.RenewLease? then s.cache.value else Invalidated(s.cache.value, s.rows[id].userId, id))
  {
    UpdateIsAbsorbed(s, id, st);
    var s' := Step(s, UpdateTask(id, st)).0;
    assert s'.rows == ExecuteOn(s.rows, id, st) && s'.cache.Some?;
    assert s'.cache.value == if st.RenewLease? then s.cache.value
                             else Invalidated(s.cache.value, s.rows[id].userId, id);
  }

  function Filed(c: Cache, key: ListKey, page: Listing): Cache {
    c.(lists := c.lists[key := page])
  }

  /** A page cached under the current version is the table's, and the table's may be cached there. */
  lemma PageMayBeFiled(s: Service, userId: int, q: Query)
    requires CachedService.Ok(s) && s.cache.Some?
    ensures var c, page := s.cache.value, PageOf(ViewsOf(s.rows, userId), q);
            var key := ListKey(userId, Version(c, userId), q);
            && (key in c.lists ==> c.lists[key] == page)
            && Coherent(s.rows, Filed(c, key, page))
  {
    var c, page := s.cache.value, PageOf(ViewsOf(s.rows, userId), q);
    var key := ListKey(userId, Version(c, userId), q);
    if key in c.lists {
      assert ListFits(s.rows, c, key);
    }
    forall k | k in Filed(c, key, page).lists
      ensures ListFits(s.rows, Filed(c, key, page), k)
    {
      assert k in c.lists ==> ListFits(s.rows, c, k);
    }
  }

  lemma RowFits(rows: Rows, row: ImageGeneration)
    requires (forall id :: id in rows ==> id < row.id && rows[id].id == id)
    requires NamesAreUnique(rows) && Named(rows, row.userId, row.requestId) == {}
    ensures var after := rows[row.id := row];
            (forall id :: id in after ==> id < row.id + 1 && after[id].id == id) && NamesAreUnique(after)
  {
    OneMoreName(rows, row.id, row);
  }

  class ImageService {
    const client: RedisCacheClient
    var rows: Rows
    var nextId: int

    constructor (client: RedisCacheClient)
      requires client.State() == Cache(map[], map[], map[])
      ensures this.client == client && rows == map[] && Valid()
    {
      this.client, rows, nextId := client, map[], 1;
    }

    ghost predicate Valid()
      reads this, client
    {
      && (forall id :: id in rows ==> id < nextId && rows[id].id == id)
      && NamesAreUnique(rows)
      && (client.available ==> Coherent(rows, client.State()))
    }

    /** The state CachedService's operations act on. */
    ghost function State(): Service
      reads this, client
    {
      Service(rows, nextId, if client.available then Some(client.State()) else None)
    }

    method FindByUserId(userId: int, q: Query) returns (page: Listing)
      requires IdsMatch(rows)
      ensures ShowsPage(rows, userId, q.filter, q.page, q.size, page)
      ensures page == PageOf(ViewsOf(rows, userId), q)
    {
      PageShows(rows, userId, q);
      var views := ViewsOf(rows, userId);
      var ids := FetchDescending(Selected(views, q));
      OffsetIsProduct(q.page, q.size);
      page := Slice(views, ids, q.page * q.size, q.size);
    }

    method GetById(userId: int, id: int, onGet: Fate, onSetex: Fate) returns (r: Result<Answer, ServiceError>)
      requires Valid()
      modifies client
      ensures Valid()
      ensures userId <= 0 ==> r == Err(Unauthorized)
      ensures userId > 0 && !(id in rows && rows[id].userId == userId) ==> r == Ok(NotFound)
      ensures userId > 0 && id in rows && rows[id].userId == userId ==>
                r.Ok? && r.value.Found? && ShowsRow(r.value.image, rows[id])
    {
      if userId <= 0 {
        return Err(Unauthorized);
      }
      ghost var before := State();
      ReadsKeepOk(before, CachedService.Op.GetById(userId, id));
      var cached := client.GetMeta((userId, id), onGet);
      if cached.Some? {
        return Ok(MetaAnswer(cached.value));
      }
      client.SetexMeta((userId, id), EntryFor(rows, userId, id), onSetex);
      if client.available {
        assert State() == Step(before, CachedService.Op.GetById(userId, id)).0;
      }
      return Ok(ReadRow(rows, userId, id));
    }

    method ListMyImages(userId: int, filter: Option<Status>, page: int, size: int,
                        onVersion: Fate, onGet: Fate, onSetex: Fate) returns (r: Result<Answer, ServiceError>)
      requires Valid()
      modifies client
      ensures Valid()
      ensures userId <= 0 ==> r == Err(Unauthorized)
      ensures userId > 0 ==>
                && r.Ok? && r.value.Page?
                && ShowsPage(rows, userId, filter, if page < 0 then 0 else page, if size <= 0 then 10 else size,
                             r.value.listing)
    {
      if userId <= 0 {
        return Err(Unauthorized);
      }
      var q := Query(filter, NormalizePage(page), NormalizeSize(size));
      PageShows(rows, userId, q);
      ghost var before := State();
      if client.available {
        PageMayBeFiled(before, userId, q);
      }
      var version := client.GetVersion(userId, onVersion);
      var key := ListKey(userId, version, q);
      var cached := client.GetList(key, onGet);
      if cached.Some? {
        assert cached.value == PageOf(ViewsOf(rows, userId), q);
        return Ok(Page(cached.value));
      }
      var loaded := FindByUserId(userId, q);
      client.SetexList(key, loaded, onSetex);
      assert client.available ==> client.State() == Filed(before.cache.value, key, loaded);
      return Ok(Page(loaded));
    }

    method InvalidateAllForTask(userId: int, id: int, onDel: Fate, onBump: Fate)
      modifies client
      ensures client.available <==> old(client.available) && onDel.Works? && onBump.Works?
      ensures client.available ==>
                && client.meta == old(client.meta) - {(userId, id)} && client.lists == old(client.lists)
                && client.versions ==
                     old(client.versions)[userId := (if userId in old(client.versions)
                                                     then old(client.versions)[userId] else 0) + 1]
      ensures client.available ==> client.State() == Invalidated(old(client.State()), userId, id)
    {
      client.DelMeta((userId, id), onDel);
      var version := client.BumpVersion(userId, onBump);
    }

    /** A claim, finish, deferral, cancellation or retry that matched its row, then the invalidation;
        a renewal invalidates nothing. */
    method UpdateAndInvalidate(id: int, st: Statement, onDel: Fate, onBump: Fate) returns (affected: bool)
      requires Valid()
      modifies this`rows, client
      ensures Valid()
      ensures affected <==> id in old(rows) && Matches(old(rows)[id], st)
      ensures rows == ExecuteOn(old(rows), id, st)
    {
      affected := id in rows && Matches(rows[id], st);
      if !affected {
        return;
      }
      ghost var before := State();
      if client.available {
        UpdatedIsCoherent(before, id, st);
      }
      var userId := rows[id].userId;
      StatementFrame(rows[id], st);
      rows := ExecuteOn(rows, id, st);
      if !st.RenewLease? {
        InvalidateAllForTask(userId, id, onDel, onBump);
      }
    }

    /** Undisturbed, creating is idempotent (ConcurrentCreates has creates that interleave): a request
        id the user has used before, in whatever letter case, gets the row it named then, and the table
        stays as it is.  The row is spelled as asked exactly when the user had none of that name
        spelled otherwise.  Only administrators may go over the limit of unfinished tasks. */
    method CreateTask(userId: int, request: ImageGeneration, invalid: bool, isAdmin: bool, maxActive: int,
                      builtId: string, onSetex: Fate, onBump: Fate) returns (r: Result<ImageGeneration, ServiceError>)
      requires Valid()
      modifies this, client
      ensures Valid()
      ensures userId <= 0 ==> r == Err(Unauthorized)
      ensures userId > 0 && invalid ==> r == Err(Invalid)
      ensures userId > 0 && !invalid ==>
                (r.Err? <==> !isAdmin && 0 < maxActive <=
                               |set id | id in old(rows) && old(rows)[id].userId == userId
                                         && old(rows)[id].status in {Queued, Pending, Generating}|)
                && (r.Err? ==> r == Err(TooManyActive))
      ensures r.Err? ==> rows == old(rows)
      ensures r.Ok? ==>
                var asked := if request.requestId == "" then builtId else request.requestId;
                && r.value.id in rows && rows[r.value.id] == r.value
                && r.value.id in Named(rows, userId, asked)
                && (r.value.requestId == asked <==> !SpelledOtherwise(old(rows), userId, asked))
                && (if Named(old(rows), userId, asked) == {}
                    then r.value.id !in old(rows) && rows == old(rows)[r.value.id := r.value]
                         && r.value == request.(id := r.value.id, userId := userId, requestId := asked,
                                                status := Queued, errorMessage := "", completedAt := None,
                                                imageUrl := "", imageBytes := "", generationTime := 0.0)
                    else rows == old(rows))
    {
      if userId <= 0 {
        return Err(Unauthorized);
      }
      if invalid {
        return Err(Invalid);
      }
      if !isAdmin && maxActive > 0 && |Unfinished(rows, userId)| >= maxActive {
        return Err(TooManyActive);
      }
      var generation := request.(userId := userId, requestId := RequestIdFor(request, builtId));
      var existing := Named(rows, userId, generation.requestId);
      if existing != {} {
        assert (forall id :: id !in existing) ==> existing == {};
        var id :| id in existing;
        assert forall other :: other in existing ==> Bears(rows[other], rows[id]) && other == id;
        return Ok(rows[id]);
      }
      var row := InsertAndCache(generation, onSetex, onBump);
      return Ok(row);
    }

    method InsertAndCache(generation: ImageGeneration, onSetex: Fate, onBump: Fate) returns (row: ImageGeneration)
      requires Valid() && Named(rows, generation.userId, generation.requestId) == {}
      modifies this, client
      ensures Valid()
      ensures row.id !in old(rows) && rows == old(rows)[row.id := row]
      ensures row == generation.(id := row.id, status := Queued, errorMessage := "", completedAt := None,
                                 imageUrl := "", imageBytes := "", generationTime := 0.0)
    {
      ghost var before := State();
      ghost var was := rows;
      if client.available {
        CreatedIsCoherent(before, generation);
      }
      row := Created(generation, nextId);
      rows, nextId := rows[nextId := row], nextId + 1;
      client.SetexMeta((row.userId, row.id), Image(row), onSetex);
      var version := client.BumpVersion(row.userId, onBump);
      RowFits(was, row);
      assert client.available ==> client.State() == CachedRow(before.cache.value, row);
    }

    /** Cancelled exactly when the task exists for this user and is unfinished; the guard and the
        statement agree, so the conflict reply is for interference only. */
    method CancelById(userId: int, id: int, now: int, onDel: Fate, onBump: Fate)
      returns (r: Result<ImageGeneration, ServiceError>)
      requires Valid()
      modifies this`rows, client
      ensures Valid()
      ensures r.Ok? <==> userId > 0 && id in old(rows) && old(rows)[id].userId == userId
                         && old(rows)[id].status in {Pending, Queued, Generating}
      ensures r.Ok? ==>
                && rows == old(rows)[id := r.value]
                && r.value == old(rows)[id].(
                     status := Cancelled, cancelledAt := Some(now), completedAt := Some(now),
                     worker := "", leaseExpiresAt := None, errorMessage := "", failureCode := "")
      ensures r.Err? ==>
                && rows == old(rows)
                && r.error == (if userId <= 0 then Unauthorized
                               else if id in old(rows) && old(rows)[id].userId == userId then NotAllowed
                               else NoSuchTask)
    {
      if userId <= 0 {
        return Err(Unauthorized);
      }
      if !Owns(rows, userId, id) {
        return Err(NoSuchTask);
      }
      if !CanCancel(rows[id].status) {
        return Err(NotAllowed);
      }
      var updated := UpdateAndInvalidate(id, CancelTask(userId, now), onDel, onBump);
      if !updated {
        return Err(Conflict);
      }
      return Ok(rows[id]);
    }

    method RetryById(userId: int, id: int, onDel: Fate, onBump: Fate) returns (r: Result<ImageGeneration, ServiceError>)
      requires Valid()
      modifies this`rows, client
      ensures Valid()
      ensures r.Ok? <==> userId > 0 && id in old(rows) && old(rows)[id].userId == userId
                         && old(rows)[id].status in {Failed, Timeout, Cancelled}
                         && old(rows)[id].retryCount < old(rows)[id].maxRetries
      ensures r.Ok? ==>
                && rows == old(rows)[id := r.value]
                && r.value.status == Queued && r.value.retryCount == old(rows)[id].retryCount + 1
                && r.value.worker == "" && r.value.leaseExpiresAt == None && r.value.startedAt == None
                && r.value.completedAt == None && r.value.cancelledAt == None
                && r.value.failureCode == "" && r.value.errorMessage == "" && r.value.storageKey == ""
                && r.value.imageUrl == "" && r.value.thumbnailUrl == "" && r.value.generationTime == 0.0
                && r.value.id == old(rows)[id].id && r.value.userId == userId
                && r.value.requestId == old(rows)[id].requestId && r.value.maxRetries == old(rows)[id].maxRetries
      ensures r.Err? ==>
                && rows == old(rows)
                && r.error == (if userId <= 0 then Unauthorized
                               else if id in old(rows) && old(rows)[id].userId == userId then NotAllowed
                               else NoSuchTask)
    {
      if userId <= 0 {
        return Err(Unauthorized);
      }
      if !Owns(rows, userId, id) {
        return Err(NoSuchTask);
      }
      if !CanRetry(rows[id].status, rows[id].retryCount, rows[id].maxRetries) {
        return Err(NotAllowed);
      }
      var updated := UpdateAndInvalidate(id, RetryTask(userId), onDel, onBump);
      if !updated {
        return Err(Conflict);
      }
      return Ok(rows[id]);
    }

    method DeleteById(userId: int, id: int, onDel: Fate, onBump: Fate) returns (r: Result<(), ServiceError>)
      requires Valid()
      modifies this`rows, client
      ensures Valid()
      ensures r.Ok? <==> userId > 0 && id in old(rows) && old(rows)[id].userId == userId
                         && old(rows)[id].status in {Success, Failed, Cancelled, Timeout}
      ensures rows == if r.Ok? then old(rows) - {id} else old(rows)
      ensures r.Err? ==> r.error == (if userId <= 0 then Unauthorized
                                     else if id in rows && rows[id].userId == userId then NotAllowed
                                     else NoSuchTask)
    {
      if userId <= 0 {
        return Err(Unauthorized);
      }
      if !Owns(rows, userId, id) {
        return Err(NoSuchTask);
      }
      if !CanDelete(rows[id].status) {
        return Err(NotAllowed);
      }
      ghost var before := State();
      StepAgrees(before, Delete(id, userId));
      rows := rows - {id};
      InvalidateAllForTask(userId, id, onDel, onBump);
      if client.available {
        assert State() == Step(before, Delete(id, userId)).0;
      }
      return Ok(());
    }
  }
}
