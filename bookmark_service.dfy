/**
 * `BookmarkService`: the cache-aside layer over the bookmark table (Prisma)
 * and the Redis cache. Each method runs its store and cache commands one
 * after another; the fire-and-forget cache fill of the list read is taken to
 * complete before the read returns.
 */
module Service {
  import opened Wrappers
  import opened KeyScheme
  import opened Bookmarks
  import opened Collections

  /** What holds between operations: rows keyed by id, fresh ids above all used ones, a faithful cache. */
  ghost predicate Consistent(store: Store, cache: Cache, nextId: int) {
    && StoreWellFormed(store)
    && (forall id :: id in store ==> id < nextId)
    && CacheFaithful(store, cache)
    && AllExpiring(cache)
  }

  /**
   * The list read's cache path is exact: copying the snapshots of the keys
   * `KEYS` returned gives each snapshot under the user's pattern once, and
   * each is a current row of the user.
   */
  lemma CachedListIsExact(store: Store, cache: Cache, userId: int, matchedKeys: seq<CacheKey>, arr: seq<Bookmark>)
    requires StoreWellFormed(store) && CacheFaithful(store, cache)
    requires Distinct(matchedKeys) && |matchedKeys| == |OwnerKeys(cache, userId)|
    requires forall k :: k in matchedKeys <==> k in OwnerKeys(cache, userId)
    requires |arr| == |matchedKeys|
    requires forall j :: 0 <= j < |arr| ==> arr[j] == cache[matchedKeys[j]].value
    ensures Distinct(arr) && |arr| == |OwnerKeys(cache, userId)|
    ensures forall b :: b in arr <==> b in CachedValues(cache, userId)
    ensures forall b :: b in arr ==> b in OwnedRows(store, userId)
  {
    forall i, j | 0 <= i < j < |arr|
      ensures arr[i] != arr[j]
    {
      assert matchedKeys[i] in matchedKeys && matchedKeys[j] in matchedKeys;
      CachedValuesDistinct(store, cache, matchedKeys[i], matchedKeys[j]);
    }
    forall b | b in arr
      ensures b in CachedValues(cache, userId)
    {
      var j :| 0 <= j < |arr| && arr[j] == b;
      assert matchedKeys[j] in matchedKeys;
      assert matchedKeys[j] in OwnerKeys(cache, userId);
    }
    forall b | b in CachedValues(cache, userId)
      ensures b in arr
    {
      var k :| k in OwnerKeys(cache, userId) && cache[k].value == b;
      assert k in matchedKeys;
      var j :| 0 <= j < |matchedKeys| && matchedKeys[j] == k;
      assert arr[j] == b;
    }
    CachedValuesAreOwnedRows(store, cache, userId);
  }

  class BookmarkService {
    /** The bookmark table. */
    var store: Store
    /** The Redis key space used by the service. */
    var cache: Cache
    /** The next id the table's autoincrement hands out. */
    var nextId: int

    ghost predicate Valid()
      reads this
    {
      Consistent(store, cache, nextId)
    }

    constructor ()
      ensures Valid()
      ensures store == map[] && cache == map[] && nextId == 1
    {
      store, cache, nextId := map[], map[], 1;
    }

    /** Redis `KEYS key:<userId>:*`. */
    method Keys(userId: int) returns (matchedKeys: seq<CacheKey>)
      ensures Distinct(matchedKeys) && |matchedKeys| == |OwnerKeys(cache, userId)|
      ensures forall k :: k in matchedKeys <==> k in cache && MatchesOwnerPattern(KeyString(k), userId)
    {
      matchedKeys := Enumerate(OwnerKeys(cache, userId));
    }

    /** Prisma `bookmark.findMany({ where: { userId } })`. */
    method FindMany(userId: int) returns (rows: seq<Bookmark>)
      requires Valid()
      ensures forall i, j :: 0 <= i < j < |rows| ==> rows[i].id != rows[j].id
      ensures forall b :: b in rows <==> b in OwnedRows(store, userId)
    {
      var owned := set id | id in store && store[id].userId == userId;
      var ids := Enumerate(owned);
      forall i | 0 <= i < |ids|
        ensures ids[i] in store && store[ids[i]].userId == userId
      {
        assert ids[i] in ids;
      }
      var snapshot := store;
      rows := seq(|ids|, i requires 0 <= i < |ids| => snapshot[ids[i]]);
      forall i | 0 <= i < |rows|
        ensures rows[i].id == ids[i]
      {
      }
      forall b | b in OwnedRows(store, userId)
        ensures b in rows
      {
        OwnedRowIsStored(store, userId, b);
        assert b.id in owned;
        var i :| 0 <= i < |ids| && ids[i] == b.id;
        assert rows[i] == b;
      }
    }

    /** Redis `MGET` of the matched keys, each snapshot read back as a bookmark and pushed in order. */
    method ReadSnapshots(matchedKeys: seq<CacheKey>) returns (arr: seq<Bookmark>)
      requires forall k :: k in matchedKeys ==> k in cache
      ensures |arr| == |matchedKeys|
      ensures forall j :: 0 <= j < |arr| ==> arr[j] == cache[matchedKeys[j]].value
    {
      var snapshot := cache;
      var cacheData := seq(|matchedKeys|, i requires 0 <= i < |matchedKeys| => snapshot[matchedKeys[i]]);
      arr := [];
      var i := 0;
      while i < |cacheData|
        invariant 0 <= i <= |cacheData|
        invariant |arr| == i
        invariant forall j :: 0 <= j < i ==> arr[j] == cacheData[j].value
      {
        arr := arr + [cacheData[i].value];
        i := i + 1;
      }
    }

    /**
     * Caches every row of `dbData` under its owner's key with the service's
     * TTL: `SET` followed by `EXPIRE` for each. The keys are new, so nothing
     * already cached changes.
     */
    method FillCache(userId: int, dbData: seq<Bookmark>)
      requires Valid()
      requires forall k :: k in cache ==> k.userId != userId
      requires forall i, j :: 0 <= i < j < |dbData| ==> dbData[i].id != dbData[j].id
      requires forall i :: 0 <= i < |dbData| ==>
                 dbData[i].id in store && store[dbData[i].id] == dbData[i] && dbData[i].userId == userId
      modifies this
      ensures Valid()
      ensures store == old(store) && nextId == old(nextId)
      ensures cache.Keys == old(cache).Keys + (set i | 0 <= i < |dbData| :: CacheKey(userId, dbData[i].id))
      ensures forall i :: 0 <= i < |dbData| ==> cache[CacheKey(userId, dbData[i].id)] == CacheEntry(dbData[i], SnapshotTtl)
      ensures forall k :: k in old(cache) ==> cache[k] == old(cache)[k]
    {
      var i := 0;
      while i < |dbData|
        invariant 0 <= i <= |dbData|
        invariant store == old(store) && nextId == old(nextId)
        invariant Valid()
        invariant cache.Keys == old(cache).Keys + (set j | 0 <= j < i :: CacheKey(userId, dbData[j].id))
        invariant forall j :: 0 <= j < i ==> cache[CacheKey(userId, dbData[j].id)] == CacheEntry(dbData[j], SnapshotTtl)
        invariant forall k :: k in old(cache) ==> cache[k] == old(cache)[k]
      {
        var row := dbData[i];
        var key := CacheKey(row.userId, row.id);
        SetThenExpireKeepsFaithful(store, cache, row);
        cache := RedisSet(cache, key, row);
        cache := RedisExpire(cache, key, SnapshotTtl);
        i := i + 1;
      }
    }

    /**
     * All bookmarks of `userId`. When any key matches the user's pattern the
     * snapshots under those keys are returned and nothing changes; otherwise
     * the store's rows are returned and each is cached under its key.
     */
    method GetBookmarks(userId: int) returns (bookmarks: seq<Bookmark>)
      requires Valid()
      modifies this
      ensures Valid()
      ensures store == old(store) && nextId == old(nextId)
      ensures Distinct(bookmarks)
      ensures forall b :: b in bookmarks ==> b in OwnedRows(store, userId)
      ensures OwnerKeys(old(cache), userId) != {} ==>
                && cache == old(cache)
                && |bookmarks| == |OwnerKeys(old(cache), userId)|
                && (forall b :: b in bookmarks <==> b in CachedValues(old(cache), userId))
      ensures OwnerKeys(old(cache), userId) == {} ==>
                && (forall b :: b in bookmarks <==> b in OwnedRows(store, userId))
                && cache.Keys == old(cache).Keys + (set i | 0 <= i < |bookmarks| :: CacheKey(userId, bookmarks[i].id))
                && (forall i :: 0 <= i < |bookmarks| ==> cache[CacheKey(userId, bookmarks[i].id)] == CacheEntry(bookmarks[i], SnapshotTtl))
                && (forall k :: k in old(cache) ==> cache[k] == old(cache)[k])
    {
      var matchedKeys := Keys(userId);
      if |matchedKeys| > 0 {
        var arr := ReadSnapshots(matchedKeys);
        CachedListIsExact(store, cache, userId, matchedKeys, arr);
        return arr;
      }
      assert OwnerKeys(cache, userId) == {};
      OwnerKeysByOwner(cache, userId);
      var dbData := FindMany(userId);
      forall i | 0 <= i < |dbData|
        ensures dbData[i].id in store && store[dbData[i].id] == dbData[i] && dbData[i].userId == userId
      {
        assert dbData[i] in dbData;
        OwnedRowIsStored(store, userId, dbData[i]);
      }
      FillCache(userId, dbData);
      bookmarks := dbData;
      forall i, j | 0 <= i < j < |bookmarks|
        ensures bookmarks[i] != bookmarks[j]
      {
        assert bookmarks[i].id != bookmarks[j].id;
      }
    }

    /**
     * One bookmark. A cached snapshot under the caller's key is returned as
     * it is, without reading the store or checking the owner again. Otherwise
     * the store row is returned and cached, or `NotFound` when it is missing
     * or owned by someone else.
     */
    method GetBookmarkById(userId: int, bookmarkId: int) returns (r: Result<Bookmark>)
      requires Valid()
      modifies this
      ensures Valid()
      ensures store == old(store) && nextId == old(nextId)
      ensures r == Lookup(store, userId, bookmarkId)
      ensures CacheKey(userId, bookmarkId) in old(cache) ==>
                cache == old(cache) && r == Ok(old(cache)[CacheKey(userId, bookmarkId)].value)
      ensures CacheKey(userId, bookmarkId) !in old(cache) && r.Ok? ==>
                cache == old(cache)[CacheKey(userId, bookmarkId) := CacheEntry(r.value, SnapshotTtl)]
      ensures r.Err? ==> r.error == NotFound && cache == old(cache)
    {
      var redisKey := CacheKey(userId, bookmarkId);
      if redisKey in cache {
        CacheHitIsFaithful(store, cache, userId, bookmarkId);
        return Ok(cache[redisKey].value);
      }
      if bookmarkId !in store || store[bookmarkId].userId != userId {
        return Err(NotFound);
      }
      var dbData := store[bookmarkId];
      SetThenExpireKeepsFaithful(store, cache, dbData);
      cache := RedisSet(cache, redisKey, dbData);
      cache := RedisExpire(cache, redisKey, SnapshotTtl);
      return Ok(dbData);
    }

    /**
     * Inserts a row for `userId` with the payload's fields under a fresh id,
     * caches it under the owner's key, and returns it.
     */
    method CreateBookmark(userId: int, dto: CreateBookmarkDto) returns (bookmark: Bookmark)
      requires Valid()
      modifies this
      ensures Valid()
      ensures bookmark == NewBookmark(old(nextId), userId, dto)
      ensures bookmark.id !in old(store)
      ensures store == old(store)[bookmark.id := bookmark]
      ensures cache == old(cache)[CacheKey(userId, bookmark.id) := CacheEntry(bookmark, SnapshotTtl)]
      ensures nextId == old(nextId) + 1
    {
      bookmark := NewBookmark(nextId, userId, dto);
      InsertKeepsFaithful(store, cache, bookmark);
      store := store[bookmark.id := bookmark];
      nextId := nextId + 1;
      var redisKey := CacheKey(userId, bookmark.id);
      SetThenExpireKeepsFaithful(store, cache, bookmark);
      cache := RedisSet(cache, redisKey, bookmark);
      cache := RedisExpire(cache, redisKey, SnapshotTtl);
    }

    /**
     * Applies the patch to the caller's own bookmark, in the store and then
     * in the cache. A missing row or someone else's fails with `Forbidden`
     * and changes nothing.
     */
    method EditBookmarkById(userId: int, bookmarkId: int, dto: EditBookmarkDto) returns (r: Result<Bookmark>)
      requires Valid()
      modifies this
      ensures Valid()
      ensures nextId == old(nextId)
      ensures r.Ok? <==> bookmarkId in old(store) && old(store)[bookmarkId].userId == userId
      ensures r.Ok? ==>
                && r.value == ApplyEdit(old(store)[bookmarkId], dto)
                && store == old(store)[bookmarkId := r.value]
                && cache == old(cache)[CacheKey(userId, bookmarkId) := CacheEntry(r.value, SnapshotTtl)]
      ensures r.Err? ==> r.error == Forbidden && store == old(store) && cache == old(cache)
    {
      if bookmarkId !in store || store[bookmarkId].userId != userId {
        return Err(Forbidden);
      }
      var bookmark := store[bookmarkId];
      var res := ApplyEdit(bookmark, dto);
      UpdateKeepsFaithful(store, cache, res, NoExpiry);
      store := store[bookmarkId := res];
      var redisKey := CacheKey(userId, bookmark.id);
      ghost var before := cache;
      cache := RedisSet(cache, redisKey, res);
      ExpireKeepsFaithful(store, cache, redisKey, SnapshotTtl);
      cache := RedisExpire(cache, redisKey, SnapshotTtl);
      assert cache == before[redisKey := CacheEntry(res, SnapshotTtl)];
      return Ok(res);
    }

    /**
     * Deletes the caller's own bookmark: first its cache key, then the row.
     * `midStore` and `midCache` are the state between the two deletions, which
     * is itself consistent. A missing row or someone else's fails with
     * `Forbidden` and changes nothing.
     */
    method DeleteBookmarkById(userId: int, bookmarkId: int) returns (r: Result<()>, ghost midStore: Store, ghost midCache: Cache)
      requires Valid()
      modifies this
      ensures Valid()
      ensures nextId == old(nextId)
      ensures r.Ok? <==> bookmarkId in old(store) && old(store)[bookmarkId].userId == userId
      ensures r.Ok? ==>
                && midStore == old(store) && midCache == old(cache) - {CacheKey(userId, bookmarkId)}
                && Consistent(midStore, midCache, nextId)
                && store == midStore - {bookmarkId} && cache == midCache
      ensures r.Ok? ==> store == old(store) - {bookmarkId} && cache == old(cache) - {CacheKey(userId, bookmarkId)}
      ensures r.Err? ==> r.error == Forbidden && store == old(store) && cache == old(cache)
    {
      midStore, midCache := store, cache;
      if bookmarkId !in store || store[bookmarkId].userId != userId {
        return Err(Forbidden), midStore, midCache;
      }
      var redisKey := CacheKey(userId, bookmarkId);
      RemoveKeyKeepsFaithful(store, cache, redisKey);
      cache := RedisDel(cache, redisKey);
      midStore, midCache := store, cache;
      DeleteAfterInvalidateKeepsFaithful(store, cache, userId, bookmarkId);
      store := store - {bookmarkId};
      return Ok(()), midStore, midCache;
    }

    /** The TTL of `k` runs out: Redis drops the key. */
    method Expire(k: CacheKey)
      requires Valid()
      modifies this
      ensures Valid()
      ensures store == old(store) && nextId == old(nextId)
      ensures cache == old(cache) - {k}
    {
      RemoveKeyKeepsFaithful(store, cache, k);
      cache := RedisDel(cache, k);
    }
  }

  /**
   * A client run of the service from an empty store: read-your-write through
   * the cache and through the store, no leak to another user, edit, delete.
   */
  method CreateReadEditDeleteScenario() {
    var service := new BookmarkService();
    var created := service.CreateBookmark(1, CreateBookmarkDto("A", None, "https://a.example"));
    assert created.id == 1 && created.userId == 1 && created.title == "A";

    var got := service.GetBookmarkById(1, created.id);
    assert got == Ok(created);
    service.Expire(CacheKey(1, created.id));
    got := service.GetBookmarkById(1, created.id);
    assert got == Ok(created);

    var other := service.GetBookmarkById(2, created.id);
    assert other == Err(NotFound);

    var edited := service.EditBookmarkById(1, created.id, EditBookmarkDto(Some("B"), None, None));
    assert edited.Ok? && edited.value == created.(title := "B");
    got := service.GetBookmarkById(1, created.id);
    assert got == edited;

    var denied := service.EditBookmarkById(2, created.id, EditBookmarkDto(Some("C"), None, None));
    assert denied == Err(Forbidden);

    var deleted: Result<()>;
    ghost var midStore: Store, midCache: Cache;
    deleted, midStore, midCache := service.DeleteBookmarkById(1, created.id);
    assert midStore == map[created.id := edited.value] && midCache == map[];
    assert deleted.Ok?;
    got := service.GetBookmarkById(1, created.id);
    assert got == Err(NotFound);

    var list := service.GetBookmarks(3);
    assert OwnedRows(service.store, 3) == {};
    assert forall b :: b !in list;
  }

  /**
   * A list read served from a partially filled cache: user 7 creates two
   * bookmarks, both keys expire, one bookmark is read back by id (caching it
   * alone), and the following list read returns that one bookmark only,
   * although the store holds both.
   */
  method PartialListScenario() {
    var service := new BookmarkService();
    var first := service.CreateBookmark(7, CreateBookmarkDto("a", None, "https://a.example"));
    var second := service.CreateBookmark(7, CreateBookmarkDto("b", None, "https://b.example"));
    service.Expire(CacheKey(7, first.id));
    service.Expire(CacheKey(7, second.id));
    assert service.cache == map[];

    var got := service.GetBookmarkById(7, first.id);
    assert got == Ok(first);
    var key := CacheKey(7, first.id);
    assert service.cache.Keys == {key};
    SoleKeyIsOwnerKey(service.cache, key);

    ghost var cached := service.cache;
    assert cached[key].value == first;
    var list := service.GetBookmarks(7);
    SingleMatchedKeyList(cached, 7, key, list);
    assert list == [first];
    assert second in OwnedRows(service.store, 7) && second !in list;
  }

  /** When the cache holds a single key, that key is the only one its owner's glob matches. */
  lemma SoleKeyIsOwnerKey(cache: Cache, key: CacheKey)
    requires cache.Keys == {key}
    ensures OwnerKeys(cache, key.userId) == {key}
  {
    OwnerKeysByOwner(cache, key.userId);
  }

  /** A list read over a cache where exactly one key matches returns that key's snapshot alone. */
  lemma SingleMatchedKeyList(cache: Cache, userId: int, key: CacheKey, list: seq<Bookmark>)
    requires OwnerKeys(cache, userId) == {key}
    requires |list| == |OwnerKeys(cache, userId)|
    requires forall b :: b in list <==> b in CachedValues(cache, userId)
    ensures list == [cache[key].value]
  {
    assert CachedValues(cache, userId) == {cache[key].value};
    assert list[0] in CachedValues(cache, userId);
  }
}
