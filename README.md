# Bookmark cache-aside service in Dafny

This project models `BookmarkService`, the cache-aside layer of a NestJS
bookmark API. A bookmark table (Prisma) is the durable store. A Redis
cache sits in front of it. The service has five operations:

- list a user's bookmarks;
- read one bookmark;
- create a bookmark;
- edit a bookmark;
- delete a bookmark.

Reads try the cache first and fill it from the store on a miss. Writes go
to the store and then set the matching cache key with a 15-second TTL.
Deletes drop the cache key before the row.

Files:

- `key_scheme.dfy` (module `KeyScheme`): the key format `key:<userId>:<id>`,
  with both numbers in decimal and a leading `-` for negatives. It includes
  a parser for the format and the list glob `key:<userId>:*`. It proves:
  - every key parses back to its two numbers;
  - so different pairs never share a key;
  - a user's glob matches exactly that user's keys.
- `bookmarks.dfy` (module `Bookmarks`): rows, create/edit payloads, cache
  entries and the two error kinds. Also the Redis `SET`/`EXPIRE`/`DEL`
  commands as functions on the cache, and the cache invariant
  `CacheFaithful`. The invariant says every cached entry holds a current
  store row, exactly as stored, under the key of that row's owner and id.
  Lemmas prove that every kind of write the service makes keeps the
  invariant.
- `collections.dfy` (module `Collections`): `Distinct` and `Enumerate`.
  `Enumerate` lists a set in an order the caller cannot predict. This
  stands for the order of Redis `KEYS` and of an unordered `findMany`.
- `bookmark_service.dfy` (module `Service`): the class `BookmarkService`.
  - Fields: `store: map<int, Bookmark>`, `cache: map<CacheKey, CacheEntry>`,
    and `nextId`, the table's autoincrement counter.
  - Object invariant: `Valid()`.
  - Methods: one per operation, with the same steps in the same order as
    the source, plus `Expire(k)` for a TTL running out.
  - A client method, `CreateReadEditDeleteScenario`, walks through one run:
    create, read through the cache, read after the key expires, read by
    another user (`NotFound`), edit, edit by another user (`Forbidden`),
    delete, read after delete, list for a user with no rows. Each outcome
    is proven from the contracts.
  - A second client method, `PartialListScenario`, creates two bookmarks,
    lets both keys expire, reads one back by id, and then lists. The list
    holds only the bookmark that was read.

The cache is keyed by the pair `CacheKey(userId, bookmarkId)`. Each pair
stands for the Redis string `KeyString(k)`. Because `KeyStringInjective` is
proved, this is exact. `KEYS key:<u>:*` is modelled by glob matching on
`KeyString(k)` (`OwnerKeys`). `OwnerKeysByOwner` shows that this selects
exactly the keys whose owner component is `u`.

What the model shows:

- A cache hit returns what the store would return (`CacheHitIsFaithful`).
  So `GetBookmarkById` always answers `Lookup(store, u, b)`: the row if `u`
  owns it, otherwise `NotFound`. This holds on both the hit path and the
  miss path.
- A listing returns only the caller's current rows, never two equal rows.
- On a full miss, a listing returns all of the caller's rows.
- A listing served from the cache can still miss rows. If one bookmark was
  cached by a single read, a later listing returns only that one.
  `PartialCacheHidesRows` shows such a state, and `PartialListScenario`
  reaches it through the service's own operations. This follows from the
  list read returning whatever the matched keys hold (lines 26-35); the
  model keeps the code's behaviour.

## Model

| member | source | states |
|---|---|---|
| KeyScheme.IntDecimalRoundTrip | src/bookmark/bookmark.service.ts:46 | reading back the decimal text of any integer in a key gives that integer |
| KeyScheme.ParseKeyRoundTrip | src/bookmark/bookmark.service.ts:46 | parsing the key string `key:<userId>:<id>` gives back exactly the pair it was built from |
| KeyScheme.KeyStringInjective | src/bookmark/bookmark.service.ts:61 | two different (owner, bookmark) pairs never share a key string |
| KeyScheme.OwnerPatternMatchesExactly | src/bookmark/bookmark.service.ts:24 | the glob `key:<u>:*` matches a built key exactly when the key's owner is `u` |
| Bookmarks.OwnerKeys | src/bookmark/bookmark.service.ts:24 | every key `KEYS key:<u>:*` returns is a key present in the cache |
| Bookmarks.OwnerKeysByOwner | src/bookmark/bookmark.service.ts:24 | the keys `KEYS key:<u>:*` selects are exactly the cached keys whose owner component is `u` |
| Bookmarks.ApplyEdit | src/bookmark/bookmark.service.ts:129-136 | an update with the patch keeps `id` and `userId`; each field the patch sets takes the patch's value; the others keep theirs |
| Bookmarks.OwnedRowIsStored | src/bookmark/bookmark.service.ts:37-41 | a row found by the owner query is the store's row under its own id and has that owner |
| Bookmarks.CacheHitIsFaithful | src/bookmark/bookmark.service.ts:66-71 | under the cache invariant, a hit at `key(u, b)` returns row `b` from the store, owned by `u`: what the miss path would answer |
| Bookmarks.SnapshotKeepsFaithful | src/bookmark/bookmark.service.ts:91-92 | writing a store row under its owner's key (any TTL) keeps every cached entry faithful |
| Bookmarks.ExpireKeepsFaithful | src/bookmark/bookmark.service.ts:49 | changing a key's TTL never makes the cache unfaithful |
| Bookmarks.SetThenExpireKeepsFaithful | src/bookmark/bookmark.service.ts:46-49 | a `SET` of a stored row under its owner's key keeps the cache faithful; the `EXPIRE` that follows leaves exactly that row with TTL 15 and keeps it faithful again |
| Bookmarks.RemoveKeyKeepsFaithful | src/bookmark/bookmark.service.ts:157 | removing any key, by `DEL` or by expiry, keeps the cache faithful |
| Bookmarks.InsertKeepsFaithful | src/bookmark/bookmark.service.ts:97-102 | inserting a row under an unused id leaves every cached entry faithful |
| Bookmarks.UpdateKeepsFaithful | src/bookmark/bookmark.service.ts:129-140 | updating an owner's row and then overwriting its key keeps the cache faithful, because no other key holds that row |
| Bookmarks.DeleteAfterInvalidateKeepsFaithful | src/bookmark/bookmark.service.ts:155-163 | once the owner's key is gone, deleting the row keeps the cache faithful |
| Bookmarks.DeleteBeforeInvalidateBreaksFaithful | src/bookmark/bookmark.service.ts:155-163 | doing it the other way round, deleting the row while its key is cached, leaves a snapshot of a deleted row |
| Bookmarks.CachedValuesAreOwnedRows | src/bookmark/bookmark.service.ts:24-34 | every snapshot under the glob `key:<u>:*` is a current store row owned by `u` |
| Bookmarks.CachedValuesDistinct | src/bookmark/bookmark.service.ts:27-32 | two different cached keys never hold the same snapshot |
| Bookmarks.PartialCacheHidesRows | src/bookmark/bookmark.service.ts:26-35 | there is a faithful cache state where the user's glob sees one of the user's two rows, so a listing from the cache returns a strict subset |
| Collections.Enumerate | src/bookmark/bookmark.service.ts:24 | the listed sequence holds each element of the set exactly once, in an unspecified order |
| Service.CachedListIsExact | src/bookmark/bookmark.service.ts:24-34 | copying the snapshots of the matched keys gives each snapshot under the user's glob exactly once, and each one is a current row of the user |
| Service.BookmarkService.constructor | src/bookmark/bookmark.service.ts:16-19 | the service starts with an empty table, an empty cache and the first id 1, and the invariant holds |
| Service.BookmarkService.Keys | src/bookmark/bookmark.service.ts:24 | returns each cached key whose string matches `key:<u>:*` exactly once |
| Service.BookmarkService.FindMany | src/bookmark/bookmark.service.ts:37-41 | returns exactly the store rows owned by `u`, with no id repeated |
| Service.BookmarkService.ReadSnapshots | src/bookmark/bookmark.service.ts:27-32 | the `MGET` and push loop returns, position by position, the snapshot under each matched key |
| Service.BookmarkService.FillCache | src/bookmark/bookmark.service.ts:44-50 | the fill loop adds exactly one entry `key(u, row.id)` with TTL 15 for each row, and leaves every earlier cached entry as it was |
| Service.BookmarkService.GetBookmarks | src/bookmark/bookmark.service.ts:21-56 | if some key matches `key:<u>:*`: returns exactly the snapshots under those keys, once each, and changes nothing. Otherwise: returns exactly `u`'s store rows and caches each under `key(u, id)` with TTL 15. Either way it returns only current rows of `u`, never the same row twice, and never touches the store |
| Service.BookmarkService.GetBookmarkById | src/bookmark/bookmark.service.ts:58-94 | on a hit, returns the cached snapshot and changes nothing. On a miss with an owned row, returns that row and caches it with TTL 15. Otherwise fails with `NotFound` and changes nothing. In every case the result is the row if `u` owns `b`, else `NotFound` |
| Service.BookmarkService.CreateBookmark | src/bookmark/bookmark.service.ts:96-113 | adds exactly one row: a fresh id, owner `u` and the payload's fields. Caches that row under `key(u, id)` with TTL 15 and changes nothing else |
| Service.BookmarkService.EditBookmarkById | src/bookmark/bookmark.service.ts:115-143 | succeeds exactly when `b` exists and `u` owns it. Then the store row and `key(u, b)` both hold the patched row (TTL 15) and nothing else changes. Otherwise fails with `Forbidden` and changes nothing |
| Service.BookmarkService.DeleteBookmarkById | src/bookmark/bookmark.service.ts:146-165 | succeeds exactly when `b` exists and `u` owns it. Then the ghost outputs give the state in between: the old table with `key(u, b)` already gone from the cache. That state satisfies the invariant, and the final state is it with row `b` removed; nothing else changes. Otherwise fails with `Forbidden` and changes nothing |
| Service.SoleKeyIsOwnerKey | src/bookmark/bookmark.service.ts:24 | when the cache holds a single key, the glob of that key's owner matches exactly that key |
| Service.SingleMatchedKeyList | src/bookmark/bookmark.service.ts:26-35 | when exactly one cached key matches the user's glob, a list read from the cache returns that key's snapshot and nothing else |
| Service.BookmarkService.Expire | src/bookmark/bookmark.service.ts:49 | the TTL of one key runs out: only that key leaves the cache, and the invariant still holds |

## Left out

- Timestamps (`createdAt`, `updatedAt`) are not modelled. They come from a clock.
- Console logging is not modelled. This includes the `exists` call at line 64 and the second `keys` call at line 53, which exist only to be logged.
- The second read at line 83 (`findFirst`) is not modelled. In a sequential run it returns the same row as line 73.
- The cache fill at lines 44-50 is fire-and-forget. It is modelled as finishing before the list read returns; its interleaving with other requests is not modelled.
- Concurrency between requests is not modelled, nor a key expiring between `KEYS` and `MGET` (which would yield `null` at line 31).
- TTL timing is not modelled: there is no clock. A lapse is the separate `Expire(k)` step. `SET` records "no TTL" (-1) and `EXPIRE` records 15.
- Redis glob semantics are modelled only for the one pattern the service uses: a literal prefix followed by `*`.
- JSON is treated as identity. Dates would come back as strings, but dates are not modelled.
- Store and cache failures are not modelled. The source does not catch them: a failed awaited call rejects the operation unchanged. A failed `SET`/`EXPIRE` in the fill at lines 44-50 is never awaited, so the list read still returns and the rejection goes unhandled.
- Keys of other applications in the same Redis database are not modelled. The cache holds only this service's keys.
- The model assumes these five operations are the only writers of the bookmark table, and that the service starts with an empty table and an empty cache (the constructor). A write elsewhere breaks `CacheFaithful`, and with it `GetBookmarkById`'s `r == Lookup(...)`. One example is `cleanDb` in `src/prisma/prisma.service.ts`: it deletes every row but leaves their keys cached, so reads serve deleted rows until the keys expire.
- User and bookmark ids are unbounded integers. In the source they are JavaScript numbers stored in a Prisma `Int` column. Neither the column's width nor the loss of precision above 2^53 is modelled. `IntToDecimal` matches the template literal's rendering only for magnitudes below 10^21; above that JavaScript switches to exponent notation (`1e+21`).
- `generateRedisKey` in `./helper` is not part of this model. It is assumed to build the same string as the template literal at line 46.
- The payload classes in `./dto` are not part of this model. They appear as records: title, optional description and link for create; all three optional for edit.
- Prisma's id assignment is not part of this model. It appears as an autoincrement counter (`nextId`) that never reuses an id.
- NestJS exceptions appear as error values (`Err(NotFound)`, `Err(Forbidden)`). HTTP status codes and the `@HttpCode` decorator at line 145 are not modelled.
- `src/prisma/prisma.service.ts` (client configuration and `cleanDb`), `src/redis/redis.module.ts` (connection factory) and `src/bookmark/bookmark.module.ts` (dependency injection) are wiring and are not modelled.
- The write paths report a missing row with `Forbidden` too, not only a row owned by someone else. The code does this at lines 125-127 and 152-154, and the model follows the code.
