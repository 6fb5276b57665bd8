/** The task queue: a Redis list of decimal ids, pushed on the left and popped on the right. */
module TaskQueue {
  import opened Wrappers
  import opened Decimals

  const INT64_MAX: int := 0x7FFF_FFFF_FFFF_FFFF

  datatype DequeueError = NotAnId

  /** The outcomes of popping until the list is empty, in the order the workers see them. */
  function Served(queue: seq<string>): seq<Option<int>> {
    if queue == [] then []
    else [ReadInteger(queue[|queue| - 1], INT64_MAX)] + Served(queue[..|queue| - 1])
  }

  function Texts(ids: seq<int>): (texts: seq<string>)
    ensures |texts| == |ids| && forall i :: 0 <= i < |ids| ==> texts[i] == ToText(ids[i])
  {
    seq(|ids|, i requires 0 <= i < |ids| => ToText(ids[i]))
  }

  function Reversed<T>(s: seq<T>): (r: seq<T>)
    ensures |r| == |s| && forall i :: 0 <= i < |s| ==> r[i] == s[|s| - 1 - i]
  {
    seq(|s|, i requires 0 <= i < |s| => s[|s| - 1 - i])
  }

  predicate AreIds(ids: seq<int>) {
    forall i :: 0 <= i < |ids| ==> 0 < ids[i] <= INT64_MAX
  }

  function Known(ids: seq<int>): (r: seq<Option<int>>)
    ensures |r| == |ids| && forall i :: 0 <= i < |ids| ==> r[i] == Some(ids[i])
  {
    seq(|ids|, i requires 0 <= i < |ids| => Some(ids[i]))
  }

  /** A task pushed onto the queue is served after everything already there. */
  lemma {:induction false} PushedIsServedLast(queue: seq<string>, id: int)
    requires 0 < id <= INT64_MAX
    ensures Served([ToText(id)] + queue) == Served(queue) + [Some(id)]
  {
    var longer := [ToText(id)] + queue;
    if queue == [] {
      ReadBack(id, INT64_MAX);
      assert longer[..|longer| - 1] == [];
    } else {
      assert longer[..|longer| - 1] == [ToText(id)] + queue[..|queue| - 1];
      PushedIsServedLast(queue[..|queue| - 1], id);
    }
  }

  lemma ReversedPush<T>(s: seq<T>, x: T)
    ensures Reversed(s + [x]) == [x] + Reversed(s)
  {
  }

  lemma OneMorePush(ids: seq<int>, last: int)
    ensures Reversed(Texts(ids + [last])) == [ToText(last)] + Reversed(Texts(ids))
    ensures Known(ids + [last]) == Known(ids) + [Some(last)]
  {
    assert Texts(ids + [last]) == Texts(ids) + [ToText(last)];
    ReversedPush(Texts(ids), ToText(last));
  }

  /** The left pushes of a rebuild reverse the list, and the right pops undo it. */
  lemma {:induction false} RebuiltQueueServesInOrder(ids: seq<int>)
    requires AreIds(ids)
    ensures Served(Reversed(Texts(ids))) == Known(ids)
  {
    if ids == [] {
    } else {
      var init, last := ids[..|ids| - 1], ids[|ids| - 1];
      RebuiltQueueServesInOrder(init);
      assert ids == init + [last];
      OneMorePush(init, last);
      PushedIsServedLast(Reversed(Texts(init)), last);
    }
  }

  /** LREM with count zero: every occurrence goes. */
  function Without(queue: seq<string>, text: string): seq<string> {
    if queue == [] then []
    else
      var rest := Without(queue[..|queue| - 1], text);
      if queue[|queue| - 1] == text then rest else rest + [queue[|queue| - 1]]
  }

  lemma {:induction false} WithoutHasNone(queue: seq<string>, text: string)
    ensures text !in Without(queue, text)
    ensures Without(queue, text) != queue <==> text in queue
    ensures |Without(queue, text)| <= |queue|
  {
    if queue != [] {
      var last, init := queue[|queue| - 1], queue[..|queue| - 1];
      assert queue == init + [last];
      WithoutHasNone(init, text);
      if last != text {
        assert (Without(init, text) + [last] == init + [last]) ==> Without(init, text) == init by {
          assert |Without(init, text)| == |init| ==> (Without(init, text) + [last])[..|init|] == Without(init, text);
          assert (init + [last])[..|init|] == init;
        }
      }
    }
  }

  function Unserved(served: seq<Option<int>>, id: int): seq<Option<int>> {
    if served == [] then []
    else if served[0] == Some(id) then Unserved(served[1..], id)
    else [served[0]] + Unserved(served[1..], id)
  }

  /** Nothing in the list reads as this id but its own text.  Pushed ids are always of that form; what
      else may read as a number, " 7" say, would be left behind by LREM. */
  predicate OnlyOwnText(queue: seq<string>, id: int) {
    forall i :: 0 <= i < |queue| ==> ReadInteger(queue[i], INT64_MAX) == Some(id) ==> queue[i] == ToText(id)
  }

  lemma PushedIdsAreOwnText(queue: seq<string>, id: int)
    requires forall i :: 0 <= i < |queue| ==> exists n :: 0 < n <= INT64_MAX && queue[i] == ToText(n)
    ensures OnlyOwnText(queue, id)
  {
    forall i | 0 <= i < |queue| && ReadInteger(queue[i], INT64_MAX) == Some(id)
      ensures queue[i] == ToText(id)
    {
      var n :| 0 < n <= INT64_MAX && queue[i] == ToText(n);
      ReadBack(n, INT64_MAX);
    }
  }

  lemma {:induction false} UnservedHasNone(served: seq<Option<int>>, id: int)
    ensures Some(id) !in Unserved(served, id)
  {
    if served != [] {
      UnservedHasNone(served[1..], id);
    }
  }

  lemma ServedStep(queue: seq<string>, last: string)
    ensures Served(queue + [last]) == [ReadInteger(last, INT64_MAX)] + Served(queue)
  {
    assert (queue + [last])[..|queue|] == queue;
  }

  /** Removing a task takes exactly that task out of what will be served, and keeps the order of the
      rest, if and only if nothing but its own text reads as its id. */
  lemma {:induction false} RemovedIsNeverServedIffOwnText(queue: seq<string>, id: int)
    requires 0 < id <= INT64_MAX
    ensures Served(Without(queue, ToText(id))) == Unserved(Served(queue), id) <==> OnlyOwnText(queue, id)
  {
    if queue != [] {
      var last, init := queue[|queue| - 1], queue[..|queue| - 1];
      var text := ToText(id);
      assert queue == init + [last];
      RemovedIsNeverServedIffOwnText(init, id);
      ReadBack(id, INT64_MAX);
      ServedStep(init, last);
      ServedStep(Without(init, text), last);
      assert Served(queue)[1..] == Served(init);
      assert OnlyOwnText(queue, id) <==>
             OnlyOwnText(init, id) && (ReadInteger(last, INT64_MAX) == Some(id) ==> last == text);
      if ReadInteger(last, INT64_MAX) == Some(id) && last != text {
        UnservedHasNone(Served(init), id);
        assert Served(Without(queue, text))[0] == Some(id);
      } else if last != text {
        assert Served(Without(queue, text))[1..] == Served(Without(init, text));
        assert Unserved(Served(queue), id)[1..] == Unserved(Served(init), id);
      }
    }
  }

  /** A padded id is popped as that id but not removed with it. */
  lemma PaddedIdIsLeftBehind()
    ensures Served(Without([" 7"], ToText(7))) == [Some(7)] && Unserved(Served([" 7"]), 7) == []
  {
    var text := " 7";
    var none: seq<string> := [];
    assert ToText(7) == "7" && [text][..0] == none;
    assert SkipSpaces(text[1..]) == text[1..] && text[1..] == "7";
    assert ReadDigits("7", 0) == 7;
    assert ReadInteger(text, INT64_MAX) == Some(7);
    assert Without(none, ToText(7)) == none && none + [text] == [text];
    assert Served([text]) == [Some(7)];
    assert Served([text])[1..] == [];
  }

  /** A lease key: who holds it, and until when, in milliseconds. */
  datatype Lease = Lease(owner: string, expiresAt: int)

  class RedisClient {
    var queue: seq<string>
    var leases: map<int, Lease>

    constructor ()
      ensures queue == [] && leases == map[]
    {
      queue, leases := [], map[];
    }

    function Holder(id: int, now: int): Option<string>
      reads this`leases
    {
      if id in leases && now < leases[id].expiresAt then Some(leases[id].owner) else None
    }

    /** SET NX EX; Redis refuses a time to live that is not positive. */
    method AcquireLease(id: int, worker: string, leaseSeconds: int, now: int) returns (acquired: bool)
      modifies this`leases
      ensures acquired <==> old(Holder(id, now)) == None && leaseSeconds > 0
      ensures acquired ==>
                forall later :: now <= later < now + 1000 * leaseSeconds ==> Holder(id, later) == Some(worker)
      ensures leases == if acquired then old(leases)[id := Lease(worker, now + 1000 * leaseSeconds)] else old(leases)
    {
      acquired := Holder(id, now) == None && leaseSeconds > 0;
      if acquired {
        leases := leases[id := Lease(worker, now + 1000 * leaseSeconds)];
      }
    }

    /** Compare and delete: a lease is only given up by its holder. */
    method ReleaseLease(id: int, worker: string, now: int) returns (released: bool)
      modifies this`leases
      ensures released <==> old(Holder(id, now)) == Some(worker)
      ensures leases == if released then old(leases) - {id} else old(leases)
    {
      released := Holder(id, now) == Some(worker);
      if released {
        leases := leases - {id};
      }
    }

    method EnqueueTask(id: int)
      requires 0 < id <= INT64_MAX
      modifies this`queue
      ensures Served(queue) == Served(old(queue)) + [Some(id)]
      ensures queue == [ToText(id)] + old(queue)
    {
      PushedIsServedLast(queue, id);
      queue := [ToText(id)] + queue;
    }

    /** Ok(None) when the wait times out; an entry that is no number is popped and reported. */
    method DequeueTask() returns (r: Result<Option<int>, DequeueError>)
      modifies this`queue
      ensures old(queue) == [] ==> r == Ok(None) && queue == []
      ensures old(queue) != [] ==>
                && Served(old(queue)) == [if r.Ok? then r.value else None] + Served(queue)
                && (r.Ok? ==> r.value.Some?)
                && queue == old(queue)[..|old(queue)| - 1]
                && (r.Ok? <==> ReadInteger(old(queue)[|old(queue)| - 1], INT64_MAX).Some?)
                && (r.Ok? ==> r.value == ReadInteger(old(queue)[|old(queue)| - 1], INT64_MAX))
    {
      if queue == [] {
        return Ok(None);
      }
      var id := ReadInteger(queue[|queue| - 1], INT64_MAX);
      queue := queue[..|queue| - 1];
      r := if id.Some? then Ok(id) else Err(NotAnId);
    }

    method RemoveFromQueue(id: int) returns (removed: bool)
      requires 0 < id <= INT64_MAX
      modifies this`queue
      ensures Served(queue) == Unserved(Served(old(queue)), id) <==> OnlyOwnText(old(queue), id)
      ensures removed <==> ToText(id) in old(queue)
      ensures ToText(id) !in queue
    {
      RemovedIsNeverServedIffOwnText(queue, id);
      WithoutHasNone(queue, ToText(id));
      var before := queue;
      queue := Without(queue, ToText(id));
      removed := queue != before;
    }

    method RebuildTaskQueue(ids: seq<int>)
      requires AreIds(ids)
      modifies this`queue
      ensures Served(queue) == Known(ids)
    {
      queue := [];
      for i := 0 to |ids|
        invariant queue == Reversed(Texts(ids[..i]))
      {
        queue := [ToText(ids[i])] + queue;
        assert ids[..i + 1] == ids[..i] + [ids[i]];
        OneMorePush(ids[..i], ids[i]);
      }
      assert ids[..|ids|] == ids;
      RebuiltQueueServesInOrder(ids);
    }
  }
}
