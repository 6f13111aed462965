/**
 * The values the bookmark service works on: bookmark rows of the durable
 * store, the request payloads for creating and editing one, cache entries,
 * and the service's two error kinds. It also states the invariant that ties
 * the cache to the store, and proves that each kind of write the service
 * makes keeps it.
 */
module Bookmarks {
  import opened Wrappers
  import opened KeyScheme

  /** A row of the bookmark table. `id` is assigned by the store; `userId` is the owner. */
  datatype Bookmark = Bookmark(
    id: int,
    userId: int,
    title: string,
    description: Option<string>,
    link: string)

  /** Payload of a create request. */
  datatype CreateBookmarkDto = CreateBookmarkDto(title: string, description: Option<string>, link: string)

  /** Payload of an edit request: each field may be left out. It cannot name `id` or `userId`. */
  datatype EditBookmarkDto = EditBookmarkDto(title: Option<string>, description: Option<string>, link: Option<string>)

  /** The row the store inserts for `data: { userId, ...dto }` once it has picked `id`. */
  function NewBookmark(id: int, userId: int, dto: CreateBookmarkDto): Bookmark {
    Bookmark(id, userId, dto.title, dto.description, dto.link)
  }

  /** The row after an update with `data: { ...dto }`: fields the patch leaves out keep their value. */
  function ApplyEdit(b: Bookmark, dto: EditBookmarkDto): (r: Bookmark)
    ensures r.id == b.id && r.userId == b.userId
    ensures r.title == dto.title.GetOr(b.title)
    ensures r.description == (if dto.description.Some? then dto.description else b.description)
    ensures r.link == dto.link.GetOr(b.link)
  {
    b.(title := dto.title.GetOr(b.title),
       description := if dto.description.Some? then dto.description else b.description,
       link := dto.link.GetOr(b.link))
  }

  /** A cached bookmark snapshot and the TTL set on its key (`NoExpiry` when none). */
  datatype CacheEntry = CacheEntry(value: Bookmark, ttlSeconds: int)

  /** What Redis reports as the TTL of a key that has none: the state right after `SET`. */
  const NoExpiry: int := -1

  /** The TTL, in seconds, the service gives every key it writes. */
  const SnapshotTtl: int := 15

  datatype ServiceError = NotFound | Forbidden

  datatype Result<+T> = Ok(value: T) | Err(error: ServiceError)

  /** The durable store: bookmark id to row. */
  type Store = map<int, Bookmark>

  /** The cache: key to snapshot. */
  type Cache = map<CacheKey, CacheEntry>

  /** Redis `SET k v`: overwrites the value and clears any TTL. */
  function RedisSet(cache: Cache, k: CacheKey, v: Bookmark): Cache {
    cache[k := CacheEntry(v, NoExpiry)]
  }

  /** Redis `EXPIRE k secs`: sets the TTL of an existing key, does nothing to a missing one. */
  function RedisExpire(cache: Cache, k: CacheKey, secs: int): Cache {
    if k in cache then cache[k := cache[k].(ttlSeconds := secs)] else cache
  }

  /** Redis `DEL k`. */
  function RedisDel(cache: Cache, k: CacheKey): Cache {
    cache - {k}
  }

  /** Every row is stored under its own id. */
  ghost predicate StoreWellFormed(store: Store) {
    forall id :: id in store ==> store[id].id == id
  }

  /**
   * The entry under `k` is a faithful snapshot: it holds a row of the store,
   * exactly as stored, and `k` is the key of that row's owner and id.
   */
  ghost predicate EntryFaithful(store: Store, k: CacheKey, e: CacheEntry) {
    && k == CacheKey(e.value.userId, e.value.id)
    && e.value.id in store
    && store[e.value.id] == e.value
  }

  ghost predicate CacheFaithful(store: Store, cache: Cache) {
    forall k :: k in cache ==> EntryFaithful(store, k, cache[k])
  }

  /** Every cached key carries the service's TTL. */
  ghost predicate AllExpiring(cache: Cache) {
    forall k :: k in cache ==> cache[k].ttlSeconds == SnapshotTtl
  }

  /** The rows of the store owned by `userId`: what `findMany({ where: { userId } })` returns. */
  ghost function OwnedRows(store: Store, userId: int): set<Bookmark> {
    set id | id in store && store[id].userId == userId :: store[id]
  }

  /** A row the owner query finds sits under its own id. */
  lemma OwnedRowIsStored(store: Store, userId: int, b: Bookmark)
    requires StoreWellFormed(store)
    requires b in OwnedRows(store, userId)
    ensures b.id in store && store[b.id] == b && b.userId == userId
  {
    var id :| id in store && store[id].userId == userId && store[id] == b;
  }

  /** The cached keys matching the owner pattern of `userId`. */
  function OwnerKeys(cache: Cache, userId: int): (keys: set<CacheKey>)
    ensures keys <= cache.Keys
  {
    set k | k in cache && MatchesOwnerPattern(KeyString(k), userId)
  }

  /** The glob of `userId` selects exactly the cached keys whose owner component is `userId`. */
  lemma OwnerKeysByOwner(cache: Cache, userId: int)
    ensures OwnerKeys(cache, userId) == set k | k in cache && k.userId == userId
  {
    forall k | k in cache
      ensures MatchesOwnerPattern(KeyString(k), userId) <==> k.userId == userId
    {
      OwnerPatternMatchesExactly(k, userId);
    }
  }

  /** The snapshots cached under those keys. */
  ghost function CachedValues(cache: Cache, userId: int): set<Bookmark> {
    set k | k in OwnerKeys(cache, userId) :: cache[k].value
  }

  /** What a single-bookmark read must answer, judged by the store alone. */
  function Lookup(store: Store, userId: int, bookmarkId: int): Result<Bookmark> {
    if bookmarkId in store && store[bookmarkId].userId == userId then Ok(store[bookmarkId])
    else Err(NotFound)
  }

  /** A cache hit answers what the store would: the owner is the key's owner and the value the stored row. */
  lemma CacheHitIsFaithful(store: Store, cache: Cache, userId: int, bookmarkId: int)
    requires CacheFaithful(store, cache)
    requires CacheKey(userId, bookmarkId) in cache
    ensures Lookup(store, userId, bookmarkId) == Ok(cache[CacheKey(userId, bookmarkId)].value)
    ensures cache[CacheKey(userId, bookmarkId)].value.id == bookmarkId
  {
    assert EntryFaithful(store, CacheKey(userId, bookmarkId), cache[CacheKey(userId, bookmarkId)]);
  }

  /** Writing a store row under its owner's key keeps the cache faithful, whatever the TTL. */
  lemma SnapshotKeepsFaithful(store: Store, cache: Cache, bookmarkId: int, ttl: int)
    requires StoreWellFormed(store) && CacheFaithful(store, cache)
    requires bookmarkId in store
    ensures CacheFaithful(store, cache[CacheKey(store[bookmarkId].userId, bookmarkId) := CacheEntry(store[bookmarkId], ttl)])
  {
  }

  /** Changing a TTL never changes what is cached. */
  lemma ExpireKeepsFaithful(store: Store, cache: Cache, k: CacheKey, secs: int)
    requires CacheFaithful(store, cache)
    ensures CacheFaithful(store, RedisExpire(cache, k, secs))
  {
  }

  /**
   * The service's write of a row, `SET` and then `EXPIRE` with its TTL, leaves
   * the row under its owner's key with that TTL and keeps the cache faithful
   * after each of the two commands.
   */
  lemma SetThenExpireKeepsFaithful(store: Store, cache: Cache, row: Bookmark)
    requires StoreWellFormed(store) && CacheFaithful(store, cache)
    requires row.id in store && store[row.id] == row
    ensures CacheFaithful(store, RedisSet(cache, CacheKey(row.userId, row.id), row))
    ensures RedisExpire(RedisSet(cache, CacheKey(row.userId, row.id), row), CacheKey(row.userId, row.id), SnapshotTtl)
            == cache[CacheKey(row.userId, row.id) := CacheEntry(row, SnapshotTtl)]
    ensures CacheFaithful(store, cache[CacheKey(row.userId, row.id) := CacheEntry(row, SnapshotTtl)])
  {
    var key := CacheKey(row.userId, row.id);
    SnapshotKeepsFaithful(store, cache, row.id, NoExpiry);
    ExpireKeepsFaithful(store, RedisSet(cache, key, row), key, SnapshotTtl);
  }

  /** Removing any key, by `DEL` or by TTL lapse, keeps the cache faithful. */
  lemma RemoveKeyKeepsFaithful(store: Store, cache: Cache, k: CacheKey)
    requires CacheFaithful(store, cache)
    ensures CacheFaithful(store, RedisDel(cache, k))
  {
  }

  /** Inserting a row under an unused id leaves every cached snapshot faithful. */
  lemma InsertKeepsFaithful(store: Store, cache: Cache, row: Bookmark)
    requires CacheFaithful(store, cache)
    requires row.id !in store
    ensures CacheFaithful(store[row.id := row], cache)
  {
    forall k | k in cache
      ensures EntryFaithful(store[row.id := row], k, cache[k])
    {
      assert EntryFaithful(store, k, cache[k]);
    }
  }

  /**
   * Updating an owner's row and then overwriting its key keeps the cache
   * faithful: no other key can hold that row.
   */
  lemma UpdateKeepsFaithful(store: Store, cache: Cache, row: Bookmark, ttl: int)
    requires CacheFaithful(store, cache)
    requires row.id in store && store[row.id].userId == row.userId
    ensures CacheFaithful(store[row.id := row], cache[CacheKey(row.userId, row.id) := CacheEntry(row, ttl)])
  {
    var store', cache' := store[row.id := row], cache[CacheKey(row.userId, row.id) := CacheEntry(row, ttl)];
    forall k | k in cache'
      ensures EntryFaithful(store', k, cache'[k])
    {
      if k != CacheKey(row.userId, row.id) {
        assert EntryFaithful(store, k, cache[k]);
      }
    }
  }

  /**
   * Once the owner's key is gone, the row can be deleted from the store and
   * the cache stays faithful: the invalidate-then-delete order.
   */
  lemma DeleteAfterInvalidateKeepsFaithful(store: Store, cache: Cache, userId: int, bookmarkId: int)
    requires CacheFaithful(store, cache)
    requires bookmarkId in store && store[bookmarkId].userId == userId
    requires CacheKey(userId, bookmarkId) !in cache
    ensures CacheFaithful(store - {bookmarkId}, cache)
  {
    forall k | k in cache
      ensures EntryFaithful(store - {bookmarkId}, k, cache[k])
    {
      assert EntryFaithful(store, k, cache[k]);
    }
  }

  /**
   * The other order is unsafe: deleting the row while its key is still cached
   * leaves a snapshot of a row that no longer exists.
   */
  lemma DeleteBeforeInvalidateBreaksFaithful(store: Store, cache: Cache, userId: int, bookmarkId: int)
    requires CacheFaithful(store, cache)
    requires CacheKey(userId, bookmarkId) in cache
    ensures !CacheFaithful(store - {bookmarkId}, cache)
  {
    var k := CacheKey(userId, bookmarkId);
    CacheHitIsFaithful(store, cache, userId, bookmarkId);
    assert !EntryFaithful(store - {bookmarkId}, k, cache[k]);
  }

  /** Everything cached under a user's pattern is a current row of that user. */
  lemma CachedValuesAreOwnedRows(store: Store, cache: Cache, userId: int)
    requires CacheFaithful(store, cache)
    ensures CachedValues(cache, userId) <= OwnedRows(store, userId)
  {
    forall k | k in OwnerKeys(cache, userId)
      ensures cache[k].value in OwnedRows(store, userId)
    {
      var v := cache[k].value;
      assert EntryFaithful(store, k, cache[k]);
      OwnerPatternMatchesExactly(k, userId);
    }
  }

  /** Two different cached keys never hold the same snapshot. */
  lemma CachedValuesDistinct(store: Store, cache: Cache, k1: CacheKey, k2: CacheKey)
    requires StoreWellFormed(store) && CacheFaithful(store, cache)
    requires k1 in cache && k2 in cache && k1 != k2
    ensures cache[k1].value != cache[k2].value
  {
    assert EntryFaithful(store, k1, cache[k1]);
    assert EntryFaithful(store, k2, cache[k2]);
  }

  /**
   * A list read served from the cache can miss rows: after a single-bookmark
   * read has cached one of a user's two rows, the cache is faithful and yet
   * holds only that one under the user's pattern. This is the state-level
   * witness only; `Service.PartialListScenario` reaches such a state through
   * the service's own operations.
   */
  lemma PartialCacheHidesRows()
    ensures var r1, r2 := Bookmark(1, 7, "a", None, "l"), Bookmark(2, 7, "b", None, "l");
            var store := map[1 := r1, 2 := r2];
            var cache := map[CacheKey(7, 1) := CacheEntry(r1, SnapshotTtl)];
            && StoreWellFormed(store)
            && CacheFaithful(store, cache)
            && CachedValues(cache, 7) == {r1}
            && OwnedRows(store, 7) == {r1, r2}
  {
    var r1, r2 := Bookmark(1, 7, "a", None, "l"), Bookmark(2, 7, "b", None, "l");
    var store := map[1 := r1, 2 := r2];
    var k := CacheKey(7, 1);
    var cache := map[k := CacheEntry(r1, SnapshotTtl)];
    assert EntryFaithful(store, k, cache[k]);
    OwnerPatternMatchesExactly(k, 7);
    assert OwnerKeys(cache, 7) == {k};
    assert store[1] == r1 && store[2] == r2;
  }
}
