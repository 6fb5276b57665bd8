/** The texts of the cache's keys.  Entries of different kinds, users, tasks, versions or pages never
    share a key, so the cache may be thought of as keyed by these values themselves. */
module CacheKeys {
  import opened Decimals
  import opened Splitting
  import opened TaskStatus

  datatype CacheKey =
    | Meta(userId: int, id: int)
    | ListMy(userId: int, version: int, page: int, size: int)
    | ListMyByStatus(userId: int, status: Status, version: int, page: int, size: int)
    | Presigned(storageKey: string)
    | ListVersion(userId: int)

  function Paging(version: int, page: int, size: int): seq<string> {
    ["v" + ToText(version), "p" + ToText(page), "s" + ToText(size)]
  }

  /** The parts between the colons; a storage key may hold colons of its own. */
  function Parts(k: CacheKey): (parts: seq<string>)
    ensures |parts| >= 3
  {
    match k
    case Meta(userId, id) => ["img", "meta", ToText(userId), ToText(id)]
    case ListMy(userId, version, page, size) =>
      ["img", "list", "my", ToText(userId)] + Paging(version, page, size)
    case ListMyByStatus(userId, status, version, page, size) =>
      ["img", "list", "status", ToText(userId), StatusToString(status)] + Paging(version, page, size)
    case Presigned(storageKey) => ["img", "url", storageKey]
    case ListVersion(userId) => ["ver", "img", "list", ToText(userId)]
  }

  function KeyText(prefix: string, k: CacheKey): string {
    prefix + Join(Parts(k), ':')
  }

  /** The texts, part by part. */
  lemma MetaKeyText(prefix: string, userId: int, id: int)
    ensures KeyText(prefix, Meta(userId, id)) == prefix + ("img:meta:" + ToText(userId) + ":" + ToText(id))
  {
    var user, number := ToText(userId), ToText(id);
    JoinFour("img", "meta", user, number, ':');
    assert "img" + ":" + ("meta" + ":" + (user + ":" + number)) == "img:meta:" + user + ":" + number;
  }

  lemma PagingText(version: int, page: int, size: int)
    ensures Join(Paging(version, page, size), ':')
            == "v" + ToText(version) + ":" + ("p" + ToText(page) + ":" + ("s" + ToText(size)))
  {
    JoinThree("v" + ToText(version), "p" + ToText(page), "s" + ToText(size), ':');
  }

  lemma JoinAfterOne(a: string, rest: seq<string>)
    requires |rest| >= 1
    ensures Join([a] + rest, ':') == a + ":" + Join(rest, ':')
  {
    assert ([a] + rest)[1..] == rest;
  }

  lemma Regroup(a: string, b: string, c: string, tail: string)
    ensures a + ":" + (b + ":" + (c + ":" + tail)) == (a + ":" + b + ":") + c + ":" + tail
  {
  }

  lemma ListMyKeyText(prefix: string, userId: int, version: int, page: int, size: int)
    ensures KeyText(prefix, ListMy(userId, version, page, size))
            == prefix + ("img:list:" + "my" + ":" + (ToText(userId) + ":" + Join(Paging(version, page, size), ':')))
  {
    var user, paging := ToText(userId), Paging(version, page, size);
    assert Parts(ListMy(userId, version, page, size)) == ["img", "list", "my"] + ([user] + paging);
    JoinAfterThree("img", "list", "my", [user] + paging, ':');
    JoinAfterOne(user, paging);
    Regroup("img", "list", "my", Join([user] + paging, ':'));
    assert "img" + ":" + "list" + ":" == "img:list:";
  }

  lemma ListMyByStatusKeyText(prefix: string, userId: int, status: Status, version: int, page: int, size: int)
    ensures KeyText(prefix, ListMyByStatus(userId, status, version, page, size))
            == prefix + ("img:list:" + "status" + ":" +
                         (ToText(userId) + ":" +
                          (StatusToString(status) + ":" + Join(Paging(version, page, size), ':'))))
  {
    var user, name, paging := ToText(userId), StatusToString(status), Paging(version, page, size);
    assert Parts(ListMyByStatus(userId, status, version, page, size))
           == ["img", "list", "status"] + ([user] + ([name] + paging));
    JoinAfterThree("img", "list", "status", [user] + ([name] + paging), ':');
    JoinAfterOne(user, [name] + paging);
    JoinAfterOne(name, paging);
    Regroup("img", "list", "status", Join([user] + ([name] + paging), ':'));
    assert "img" + ":" + "list" + ":" == "img:list:";
  }

  lemma PresignKeyText(prefix: string, storageKey: string)
    ensures KeyText(prefix, Presigned(storageKey)) == prefix + ("img:url:" + storageKey)
  {
    JoinThree("img", "url", storageKey, ':');
    assert "img" + ":" + ("url" + ":" + storageKey) == "img:url:" + storageKey;
  }

  lemma VersionKeyText(prefix: string, userId: int)
    ensures KeyText(prefix, ListVersion(userId)) == prefix + ("ver:img:list:" + ToText(userId))
  {
    var user := ToText(userId);
    JoinFour("ver", "img", "list", user, ':');
    assert "ver" + ":" + ("img" + ":" + ("list" + ":" + user)) == "ver:img:list:" + user;
  }

  lemma NumbersAreFree(n: int)
    ensures Free(ToText(n), ':')
  {
    var digits := Digits(if n < 0 then -n else n);
    assert forall i :: 0 <= i < |digits| ==> IsDigit(digits[i]);
  }

  predicate AllFree(parts: seq<string>) {
    forall i :: 0 <= i < |parts| ==> Free(parts[i], ':')
  }

  lemma PagingIsFree(version: int, page: int, size: int)
    ensures AllFree(Paging(version, page, size))
  {
    NumbersAreFree(version);
    NumbersAreFree(page);
    NumbersAreFree(size);
  }

  lemma MoreAreFree(front: seq<string>, parts: seq<string>)
    requires AllFree(front) && AllFree(parts)
    ensures AllFree(front + parts)
  {
  }

  lemma PartsAreFree(k: CacheKey)
    requires !k.Presigned?
    ensures AllFree(Parts(k))
  {
    NumbersAreFree(k.userId);
    match k
    case Meta(_, id) => NumbersAreFree(id);
    case ListMy(userId, version, page, size) =>
      PagingIsFree(version, page, size);
      MoreAreFree(["img", "list", "my", ToText(userId)], Paging(version, page, size));
    case ListMyByStatus(userId, status, version, page, size) =>
      PagingIsFree(version, page, size);
      MoreAreFree(["img", "list", "status", ToText(userId), StatusToString(status)], Paging(version, page, size));
    case ListVersion(_) =>
  }

  /** Splitting gives every key's first two parts back, and all of them but for storage keys. */
  lemma KeyCanBeRead(k: CacheKey)
    ensures var parts := SplitOn(Join(Parts(k), ':'), ':');
            && |parts| >= 3 && parts[0] == Parts(k)[0] && parts[1] == Parts(k)[1]
            && (!k.Presigned? ==> parts == Parts(k))
  {
    if k.Presigned? {
      JoinThree("img", "url", k.storageKey, ':');
      SplitFirst("img", "url" + ":" + k.storageKey, ':');
      SplitFirst("url", k.storageKey, ':');
    } else {
      PartsAreFree(k);
      SplitJoin(Parts(k), ':');
    }
  }

  lemma PrefixedInjective(letter: char, m: int, n: int)
    ensures [letter] + ToText(m) == [letter] + ToText(n) ==> m == n
  {
    ToTextInjective(m, n);
    assert ([letter] + ToText(m))[1..] == ToText(m) && ([letter] + ToText(n))[1..] == ToText(n);
  }

  lemma PagingIsInjective(v: int, p: int, s: int, v': int, p': int, s': int)
    requires Paging(v, p, s) == Paging(v', p', s')
    ensures v == v' && p == p' && s == s'
  {
    var a, b := Paging(v, p, s), Paging(v', p', s');
    assert a[0] == b[0] && a[1] == b[1] && a[2] == b[2];
    PrefixedInjective('v', v, v');
    PrefixedInjective('p', p, p');
    PrefixedInjective('s', s, s');
  }

  /** The first parts and the number of parts tell the kinds apart. */
  lemma PartsTellKind(a: CacheKey, b: CacheKey)
    requires Parts(a) == Parts(b) && !a.Presigned? && !b.Presigned?
    ensures (a.Meta? <==> b.Meta?) && (a.ListMy? <==> b.ListMy?) && (a.ListVersion? <==> b.ListVersion?)
  {
    assert |Parts(a)| == |Parts(b)| && Parts(a)[0] == Parts(b)[0];
  }

  lemma ListMyPartsAreInjective(a: CacheKey, b: CacheKey)
    requires a.ListMy? && b.ListMy? && Parts(a) == Parts(b)
    ensures a == b
  {
    var p, q := Parts(a), Parts(b);
    assert p[3] == q[3];
    ToTextInjective(a.userId, b.userId);
    assert p[4..] == Paging(a.version, a.page, a.size) && q[4..] == Paging(b.version, b.page, b.size);
    PagingIsInjective(a.version, a.page, a.size, b.version, b.page, b.size);
  }

  lemma ListMyByStatusPartsAreInjective(a: CacheKey, b: CacheKey)
    requires a.ListMyByStatus? && b.ListMyByStatus? && Parts(a) == Parts(b)
    ensures a == b
  {
    var p, q := Parts(a), Parts(b);
    assert p[3] == q[3] && p[4] == q[4];
    ToTextInjective(a.userId, b.userId);
    assert p[5..] == Paging(a.version, a.page, a.size) && q[5..] == Paging(b.version, b.page, b.size);
    PagingIsInjective(a.version, a.page, a.size, b.version, b.page, b.size);
    StatusTextsDiffer(a.status, b.status);
  }

  lemma StatusTextsDiffer(s: Status, t: Status)
    ensures StatusToString(s) == StatusToString(t) ==> s == t
  {
    assert StatusFromString(StatusToString(s)) == s && StatusFromString(StatusToString(t)) == t;
  }

  lemma PartsAreInjective(a: CacheKey, b: CacheKey)
    requires Parts(a) == Parts(b) && !a.Presigned? && !b.Presigned?
    ensures a == b
  {
    PartsTellKind(a, b);
    if a.ListMy? {
      ListMyPartsAreInjective(a, b);
    } else if a.ListMyByStatus? {
      ListMyByStatusPartsAreInjective(a, b);
    } else {
      assert Parts(a)[3] == Parts(b)[3] && Parts(a)[2] == Parts(b)[2];
      ToTextInjective(a.userId, b.userId);
      if a.Meta? {
        ToTextInjective(a.id, b.id);
      }
    }
  }

  /** Two keys with the same text are the same key. */
  lemma KeysNeverCollide(prefix: string, a: CacheKey, b: CacheKey)
    requires KeyText(prefix, a) == KeyText(prefix, b)
    ensures a == b
  {
    assert Join(Parts(a), ':') == KeyText(prefix, a)[|prefix|..];
    assert Join(Parts(b), ':') == KeyText(prefix, b)[|prefix|..];
    KeyCanBeRead(a);
    KeyCanBeRead(b);
    if a.Presigned? && b.Presigned? {
      var front := "img:url:";
      JoinThree("img", "url", a.storageKey, ':');
      JoinThree("img", "url", b.storageKey, ':');
      assert Join(Parts(a), ':') == front + a.storageKey;
      assert Join(Parts(b), ':') == front + b.storageKey;
      assert a.storageKey == (front + a.storageKey)[|front|..];
      assert b.storageKey == (front + b.storageKey)[|front|..];
    } else if !a.Presigned? && !b.Presigned? {
      PartsAreInjective(a, b);
    }
  }
}
