# QuickLRU, modelled and verified in Dafny

keys-transform-generator converts the keys of JavaScript objects between
camelCase and snake_case. It memoises key conversions in `QuickLRU`, a bounded
cache bundled into `lib/index.js`. This project models that cache and the
memoised lookup-or-convert step in Dafny, and proves what they promise.

QuickLRU keeps two insertion-ordered maps instead of a linked list:

- `cache`, the recent generation, and `oldCache`, the previous one.
- A counter `_size` of insertions into `cache` since the last rollover.

When the counter reaches `maxSize`, three things happen:

- every entry of `oldCache` is handed to `onEviction`;
- `cache` becomes `oldCache`;
- an empty recent generation starts.

A `get` that hits the old generation moves the entry back into the recent
one; `has` and `peek` leave it where it is. Entries may carry an absolute
expiry instant, checked lazily. When `get`, `has`, `peek` or a traversal meets
an expired entry, it reports that entry to `onEviction` and deletes it from
both generations. The exceptions:

- `get` on a recent entry and `peek` skip the check when the expiry is 0.
- `set` overwrites an expired recent entry without reporting it.
- `delete` and `clear` never report anything.
- `size` deletes nothing.

Modules (one file each):

- `Wrappers` (`wrappers.dfy`): `Option` (the source's `undefined`), `Outcome` and `Result` (an operation that throws a `TypeError`).
- `OrderedMaps` (`ordered_maps.dfy`): a JavaScript `Map` as an association list.
  - `Insert` is `Map.set`: an existing key keeps its position and a new key is appended.
  - `Remove` is `Map.delete`.
  - `Contains` is `Map.has`.
  - `Lookup` is `Map.get`.
- `Generations` (`generations.dfy`): items with their expiry, and what a reader sees.
  - `Find` is the lookup order.
  - `Ascending` and `RecentFirst` are what the traversals yield.
  - `SweptOut` and `SweepKeys` are what the traversals report and delete.
  - Lemmas relate these functions.
- `Cache` (`quick_lru.dfy`): the class `QuickLRU` with the source's fields.
  - `count` is `_size`.
  - `maxAge` is `None` for `Infinity`.
  - `evicted` is a log of every `(key, value)` handed to `onEviction`, in call order.
  - `Valid()` is the object invariant: keys are distinct in each generation, `count == |cache| < maxSize`, and `|oldCache| <= maxSize`.
  - Every method keeps `Valid()`.
  - The instant `Date.now()` would return is the parameter `now`.
- `Memo` (`memo.dfy`): the memoised conversion step of `makeMapper` over a `QuickLRU`.
  - The case conversion itself is the function parameter `convert`.
- `Scenarios` (`scenarios.dfy`): short client runs with their proved outcomes.

## Model

| member | source | states |
|---|---|---|
| OrderedMaps.Insert | lib/index.js:229-232 | `Map.set`: an existing key keeps its place, and a new key is appended at the end. The key then maps to the new value. Every other key keeps its value, and keys stay distinct. |
| OrderedMaps.Remove | lib/index.js:261-266 | `Map.delete`: exactly the key is gone and an absent key changes nothing. With distinct keys, the length drops by one exactly when the key was present. |
| OrderedMaps.ContainsIff | lib/index.js:212-218 | `Map.has` (`Contains`) answers true exactly when some entry of the map carries the key. |
| OrderedMaps.Lookup | lib/index.js:169 | `Map.get` on a present key returns the value of an entry the map holds for it. |
| Generations.ExpiredStaysExpired | lib/index.js:146 | `IsExpired` is the test of `_deleteIfExpired`: a numeric expiry at or before `now`. An item expired at one instant stays expired at every later one. |
| Generations.TruthyExpiryTest | lib/index.js:164-166 | `ReadsAsExpired` is the test of `_getItemValue`, which checks only a truthy expiry. An item that reads as expired is expired. The two tests disagree exactly on an item whose expiry is 0, from instant 0 on. This separates `get` and `peek` from `has`. |
| Generations.Find | lib/index.js:238-248 | A lookup takes the recent generation's item when that generation holds the key, and only otherwise the old one's. It finds something exactly when either generation holds the key. |
| Generations.SweepIsIdempotent | lib/index.js:145-155 | After a traversal has deleted what it swept out, a second traversal at the same instant sweeps out nothing and yields the same entries. An expired entry is reported once. |
| Generations.FindAgreesWithAscending | lib/index.js:191-209 | A lookup finds a live item for a key exactly when `_entriesAscending` yields an entry with that key. |
| Generations.AscendingDistinct | lib/index.js:191-209 | `_entriesAscending` yields each key at most once, because shadowed old entries are skipped. |
| Generations.SweepKeysSplit | lib/index.js:191-209 | Ascending order is the live unshadowed old entries and then the live recent ones. What a traversal reports splits the same way. Keys swept from the old generation are never recent keys. |
| Generations.RecentFirst | lib/index.js:311-329 | The default iterator yields the live recent entries, then the live unshadowed old ones. As a multiset these are exactly the entries `_entriesAscending` yields. |
| Generations.UnshadowedAfterRecentSweep | lib/index.js:320-322 | The default iterator first deletes the recent generation's expired keys from both generations. Afterwards the same old entries are unshadowed as before. |
| Generations.PairsReverse | lib/index.js:331-353 | Reversing the entries and then projecting them to (key, value) pairs equals projecting and then reversing. |
| Generations.VisibleCount | lib/index.js:366-373 | The recent size plus the number of unshadowed old entries is the number of distinct keys the generations hold. |
| Generations.AscendingCount | lib/index.js:191-209 | The keys `_entriesAscending` yields and the keys it sweeps out are disjoint, and together they are exactly the distinct keys held. So their counts add up to that number, which is the count that `size` caps. |
| Cache.CheckOptions | lib/index.js:116-123 | The options pass exactly when `maxSize` is given and positive and `maxAge` is not 0. A missing or non-positive `maxSize` is reported first. |
| Cache.ExpiryAsWrittenAgrees | lib/index.js:227 | `ExpiryAsWritten` stores a per-call `maxAge` unchanged and adds the instance's `maxAge` to `now`. `Expiry` adds either one to `now`. Both give no expiry when no `maxAge` applies. They agree exactly when no per-call `maxAge` is given or `now` is 0. |
| Cache.PerCallMaxAgeExpiresAtOnce | lib/index.js:227 | As written, `set(k, v, {maxAge: 10})` at instant 1000 stores an entry that is already expired. Read as a duration, the same maxAge keeps the entry live at 1009. |
| Cache.ExpiryHonoursTtl | lib/index.js:227 | With the expiry as intended, an entry set at `now` is expired at `t` exactly when a time-to-live applies and `t >= now + ttl`. |
| Cache.ResizeKeepsNewest | lib/index.js:280-296 | What `resize` keeps has at most `newSize` distinct keys. A traversal of the resized cache yields exactly the kept entries and sweeps out nothing. |
| Cache.HeldKeysBound | lib/index.js:174-184 | The generations of a valid cache hold at most `2 * maxSize - 1` distinct keys, expired ones included. |
| Cache.QuickLRU.constructor | lib/index.js:116-132 | With valid options, the new cache is empty and valid, with the given `maxSize` and `maxAge`. |
| Cache.QuickLRU.Create | lib/index.js:116-123 | `new QuickLRU(options)` throws the `CheckOptions` error on bad options, and otherwise returns a fresh empty cache. |
| Cache.QuickLRU.EmitEvictions | lib/index.js:135-143 | Every entry is reported, in generation order, and nothing else changes. |
| Cache.QuickLRU.DeleteIfExpired | lib/index.js:145-155 | An expired item is reported once and its key deleted from both generations. The answer is whether a generation held the key. A live item changes nothing and answers false. |
| Cache.QuickLRU.GetOrDeleteIfExpired | lib/index.js:157-162 | The item's value, unless the item expired and was deleted. The deletion and report are as for `_deleteIfExpired`. |
| Cache.QuickLRU.GetItemValue | lib/index.js:164-166 | As `_getOrDeleteIfExpired`, but only for an item with a truthy expiry. An item whose expiry is 0 or absent is returned without any check. |
| Cache.QuickLRU.PeekIn | lib/index.js:168-172 | Reads the item the given generation holds for the key, with the truthy-expiry check. |
| Cache.QuickLRU.SetRecent | lib/index.js:174-184 | A new key is appended to the recent generation and counted. When the count reaches `maxSize`: the count resets, the old generation is reported in order, the recent generation becomes the old one, and the recent one is emptied. |
| Cache.QuickLRU.MoveToRecent | lib/index.js:186-189 | The key leaves the old generation and enters the recent one through `_set`. On a rollover it is not reported. |
| Cache.QuickLRU.VisitEntry | lib/index.js:194-198 | A traversal visits one entry: when shadowed entries are skipped, it runs `_deleteIfExpired` only on keys the recent generation lacks. The entry is kept exactly when it is live. |
| Cache.QuickLRU.Visit | lib/index.js:192-208 | One forward traversal loop yields the live visited entries in order. It reports the expired ones in order and deletes exactly their keys from both generations. |
| Cache.QuickLRU.VisitBackward | lib/index.js:333-340 | One backward traversal loop: the same as `Visit`, from the last entry to the first, with the yield and the reports reversed. |
| Cache.QuickLRU.EntriesAscendingRaw | lib/index.js:191-209 | `_entriesAscending` run to the end yields `Ascending`. It reports `SweptOut` in order and deletes `SweepKeys` from both generations. |
| Cache.QuickLRU.Get | lib/index.js:211-225 | A recent hit returns the value unless its truthy expiry has passed, in which case the entry is reported and deleted. The old generation is not consulted for a recent key. A live old hit is promoted through `_set`, may roll the generations over, and returns the value. An expired old hit is reported and deleted. A miss changes nothing. |
| Cache.QuickLRU.Set | lib/index.js:227-236 | A recent key is overwritten in place, with no count and no rollover. Any other key is appended and counted, and may trigger a rollover that reports the old generation. The expiry is `now` plus the per-call or default `maxAge`. |
| Cache.QuickLRU.Has | lib/index.js:238-248 | True exactly when the lookup finds a live item. An expired item is reported and deleted. Nothing is promoted. |
| Cache.QuickLRU.Peek | lib/index.js:250-258 | The value the lookup finds, with the truthy-expiry check. An expired item is reported and deleted. Nothing is promoted. |
| Cache.QuickLRU.Delete | lib/index.js:260-267 | The key is removed from both generations, and the answer is whether either held it. The count drops only for a recent key. Nothing is reported. |
| Cache.QuickLRU.Clear | lib/index.js:269-273 | Both generations are emptied and the count is 0. Nothing is reported. |
| Cache.QuickLRU.Resize | lib/index.js:275-297 | A size that is not positive fails with nothing changed. Otherwise the live entries are collected oldest first and the expired ones reported. If fewer than `newSize` remain, they all become the recent generation. If not, the oldest extra ones are reported in order and the newest `newSize` become the old generation. `maxSize := newSize`. |
| Cache.QuickLRU.Keys | lib/index.js:299-303 | The keys the default iterator yields, with its reports and deletions. |
| Cache.QuickLRU.Values | lib/index.js:305-309 | The values the default iterator yields, with its reports and deletions. |
| Cache.QuickLRU.Entries | lib/index.js:311-329 | `[Symbol.iterator]` yields `RecentFirst`. It reports the recent generation's expired entries, then the unshadowed old ones'. It leaves the same generations behind as `entriesAscending`. |
| Cache.QuickLRU.EntriesDescending | lib/index.js:331-353 | Yields exactly `entriesAscending` reversed, reports `SweptOut` reversed, and leaves the same generations behind. |
| Cache.QuickLRU.EntriesAscending | lib/index.js:355-359 | The (key, value) pairs of `_entriesAscending`, with its reports and deletions. |
| Cache.QuickLRU.Size | lib/index.js:361-374 | The number of distinct keys the generations hold, expired ones included, capped at `maxSize`. It never changes the cache. |
| Memo.CacheKeyAsWrittenCollisions | lib/index.js:493 | `CacheKeyAsWritten` is `key + "_"` under pascalCase and `key` otherwise. Two different conversions share a cache key exactly when one converts `k` with pascalCase and the other converts `k + "_"` without it. |
| Memo.CacheKeyCollides | lib/index.js:493 | As written, converting "a_" without pascalCase and converting "a" with it share one cache key. |
| Memo.CacheKey | lib/index.js:493 | The corrected cache key is the key followed by one character, which is 'P' exactly under pascalCase. |
| Memo.CacheKeyInjective | lib/index.js:493 | Two corrected cache keys are equal exactly when both key and option are equal. |
| Memo.StoredIsFaithful | lib/index.js:502-505 | The entry a conversion stores under its corrected cache key holds that key's conversion and no expiry. |
| Memo.Utf16Length | lib/index.js:502 | `key.length` counts UTF-16 code units. It equals the number of characters exactly when none lies outside the Basic Multilingual Plane, and is at most twice that number. |
| Memo.Step | lib/index.js:495-507 | A hit returns the stored value, whatever conversion stored it. A miss converts the key. The result is stored when the key's `length` is below 100 UTF-16 code units. Otherwise the cache key is absent afterwards. Afterwards the generations hold only entries they held before, plus the one stored. |
| Memo.MapKeyAsWritten | lib/index.js:493-507 | The step keyed as written. A hit returns the value stored under `key + "_"` or `key`. Otherwise the conversion is returned. It is stored when its `length` is below 100 UTF-16 code units, and never otherwise. |
| Memo.StaleConversionAsWritten | lib/index.js:493-507 | As written, on a fresh cache, converting "a" with pascalCase right after "a_" without it returns the first conversion. This holds whenever the two conversions differ. |
| Memo.MapKey | lib/index.js:493-507 | Under the corrected cache key, every entry stays a faithful conversion. So the step returns exactly `convert(key, pascalCase)`. Afterwards the cache key is present exactly when it was before or the key's `length` is below 100. |
| Scenarios.SetThenGet | lib/index.js:227-236 | On every valid cache whose default time-to-live is positive or absent, `set(k, v)` followed by `get(k)` returns `v`. This holds whether the set overwrites, appends, or rolls over. |
| Scenarios.SetHeldKey | lib/index.js:227-236 | Setting a key the cache already holds keeps the set of held keys, and a lookup then finds the new item. This holds whenever a rollover cannot drop other keys, that is, when the old generation holds only that key if a rollover is due. |
| Scenarios.OverwriteKeepsSize | lib/index.js:361-374 | On every valid cache whose default time-to-live is positive or absent, `set(k, v1)` and then `set(k, v2)` leaves `size` as the first set left it, and `get(k)` then returns `v2`. |
| Scenarios.FillTwo | lib/index.js:174-184 | With `maxSize` 2, setting a and then b rolls the generations over, and nothing is reported. |
| Scenarios.PromotionRollsOver | lib/index.js:211-225 | After a, b, c with `maxSize` 2, reading a promotes it, which rolls over and reports b. b then reads as missing. |
| Scenarios.TtlExpiresOnRead | lib/index.js:145-155 | With a default time-to-live of 10, an entry set at 0 is read at 9. At 10 it is missing, reported once, and gone. |
| Scenarios.ShrinkReportsOldest | lib/index.js:275-297 | Shrinking a cache holding a then b to one entry reports a and keeps b as the old generation. |

## Left out

- The clock: `Date.now()` is the parameter `now`, an integer count of milliseconds.
- `onEviction` is the log `evicted`. A call is logged whether or not a listener is installed; the `typeof` check only decides whether anyone observes the call.
  - Exceptions the callback throws and calls it makes back into the cache are not modelled.
- Iterators are modelled as methods that run to the end and return the whole sequence.
  - Operations a consumer performs between two yields are not modelled.
  - The forward loops iterate a live `Map` that is only ever trimmed of the entry being visited, so walking a snapshot of it visits the same entries.
- Option values that are not numbers are not modelled: a non-integer or `NaN` `maxSize` or `maxAge`, and a `NaN` expiry. `maxSize` is an `Option<int>` at construction and a positive `nat` afterwards. `maxAge` is an `Option<int>`, with `None` for `Infinity`.
- Cache.QuickLRU.Set: stores `now` plus the per-call `maxAge`, the intended behaviour. `Cache.ExpiryAsWritten` records the behaviour as written (see Findings).
- The case conversion (`camelCase` with its Unicode and locale rules) is the function parameter `convert` of the `Memo` members.
  - `mapObject`, `deep`, `stopPaths` and `exclude` are outside this model.
- Memo: the module-wide cache is passed explicitly as `lru`.
  - The step is the only writer of that cache, and it never gives an entry an expiry.
  - `MapKey`'s precondition `Coherent` is the invariant this implies, so it holds from creation on.
- Memo.MapKey: states that a stored key is found afterwards, not which generation holds it.
- src/camelcase.ts and src/snakecase.ts wrap packages whose code is not part of this model. src/types.ts and src/types.d.ts have no runtime behaviour.

Behaviour of the code worth noting:

- `has` does not promote an old-generation hit.
- `peek` and all iterators do report expired entries to `onEviction`.
- `size` counts distinct keys including expired ones, capped at `maxSize`, and deletes nothing. It is therefore at most `maxSize`, not `2 * maxSize - 1`.
- `keys` and `values` follow the default iterator (recent generation first), not ascending order.
- A negative `maxAge` is accepted by the constructor; only 0 is refused.
- `get` on a recent entry and `peek` never check an item whose expiry is 0.

## Findings

| source | as written | input that shows it | evidently intended | confidence | as-written member | corrected member |
|---|---|---|---|---|---|---|
| lib/index.js:227 | A per-call `maxAge` is stored as the item's absolute expiry, while the default `maxAge` is added to `Date.now()`. | `set(k, v, {maxAge: 10})` when `Date.now()` is 1000: the expiry is 10, so the entry is expired at once. | A per-call `maxAge` is a duration, like the instance option: the expiry is `Date.now() + maxAge`. | medium, not executed | Cache.PerCallMaxAgeExpiresAtOnce | Cache.ExpiryHonoursTtl |
| lib/index.js:493 | The cache key is `key + "_"` under pascalCase and `key` otherwise. | Convert key "a_" without pascalCase, then key "a" with it. The second lookup hits the first entry and returns the camelCase form of "a_" instead of "A". | Each (key, pascalCase) pair has its own cache key. | high, not executed | Memo.StaleConversionAsWritten | Memo.MapKey |
