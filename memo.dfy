/**
  The memoised key conversion inside `makeMapper`: converted keys are kept in
  one module-wide QuickLRU (created with `maxSize` 100000 and no `maxAge`),
  looked up with `has` and `get`, and stored with `set` unless the key is
  100 UTF-16 code units or longer. The case conversion itself is not part of this
  model: it is the parameter `convert`, applied to the key and the
  `pascalCase` option.
 */
module Memo {
  import opened Wrappers
  import opened OrderedMaps
  import opened Generations
  import opened Cache

  /** Keys this long or longer, in UTF-16 code units, are converted but never stored. */
  const StoreLimit: nat := 100

  /**
    `String.prototype.length`: the number of UTF-16 code units, which is two
    for a character outside the Basic Multilingual Plane and one otherwise.
   */
  function Utf16Length(s: string): (n: nat)
    ensures |s| <= n <= 2 * |s|
    ensures n == |s| <==> forall i :: 0 <= i < |s| ==> s[i] as int < 0x1_0000
  {
    if s == [] then 0 else (if s[0] as int < 0x1_0000 then 1 else 2) + Utf16Length(s[1..])
  }

  /** The capacity of the module-wide conversion cache. */
  const MemoSize: nat := 100000

  /** The cache key as the source computes it: `key + "_"` under pascalCase, the bare key otherwise. */
  function CacheKeyAsWritten(key: string, pascalCase: bool): string
  {
    if pascalCase then key + "_" else key
  }

  /**
    Exactly which conversions share an as-written cache key: besides a
    conversion with itself, a key converted with pascalCase and the same key
    followed by "_" converted without it.
   */
  lemma CacheKeyAsWrittenCollisions(key: string, pascalCase: bool, key': string, pascalCase': bool)
    ensures CacheKeyAsWritten(key, pascalCase) == CacheKeyAsWritten(key', pascalCase') <==>
      || (key == key' && pascalCase == pascalCase')
      || (pascalCase && !pascalCase' && key' == key + "_")
      || (!pascalCase && pascalCase' && key == key' + "_")
  {
    var r, r' := CacheKeyAsWritten(key, pascalCase), CacheKeyAsWritten(key', pascalCase');
    if r == r' && pascalCase && pascalCase' {
      assert key == r[..|r| - 1] == r'[..|r'| - 1] == key';
    }
  }

  /**
    As written, two different conversions share one cache key: the key "a_"
    converted without pascalCase and the key "a" converted with it.
   */
  lemma CacheKeyCollides()
    ensures ("a_", false) != ("a", true)
    ensures CacheKeyAsWritten("a_", false) == CacheKeyAsWritten("a", true)
  {
  }

  /** The cache key with the option always marked, in its last character. */
  function CacheKey(key: string, pascalCase: bool): (r: string)
    ensures |r| == |key| + 1 && r[..|key|] == key
    ensures r[|key|] == 'P' <==> pascalCase
  {
    key + [if pascalCase then 'P' else 'C']
  }

  /** Distinct conversions never share a cache key. */
  lemma CacheKeyInjective(key: string, pascalCase: bool, key': string, pascalCase': bool)
    ensures CacheKey(key, pascalCase) == CacheKey(key', pascalCase') <==> key == key' && pascalCase == pascalCase'
  {
    var r, r' := CacheKey(key, pascalCase), CacheKey(key', pascalCase');
    if r == r' {
      assert key == r[..|key|] == r'[..|key'|] == key';
    }
  }

  /** An entry of the conversion cache that holds the conversion its key stands for, with no expiry. */
  predicate Faithful(convert: (string, bool) -> string, e: (string, Item<string>))
  {
    |e.0| > 0 && e.1 == Item(convert(e.0[..|e.0| - 1], e.0[|e.0| - 1] == 'P'), None)
  }

  /** The entry a conversion stores is faithful. */
  lemma StoredIsFaithful(convert: (string, bool) -> string, key: string, pascalCase: bool)
    ensures Faithful(convert, (CacheKey(key, pascalCase), Item(convert(key, pascalCase), None)))
  {
    var r := CacheKey(key, pascalCase);
    assert r[..|r| - 1] == key;
  }

  /** Every entry of the cache is faithful, and the cache gives no entry an expiry. */
  ghost predicate Coherent(lru: QuickLRU<string, string>, convert: (string, bool) -> string)
    reads lru
  {
    && lru.maxAge == None
    && (forall e :: e in lru.cache ==> Faithful(convert, e))
    && (forall e :: e in lru.oldCache ==> Faithful(convert, e))
  }

  /**
    The lookup-or-compute step of `makeMapper` under a given cache key: `has`,
    then `get` on a hit; on a miss the key is converted, and the result is
    stored with `set` when the key's `length` is below `StoreLimit`. A hit
    returns what was stored, whatever conversion stored it. Afterwards the
    generations hold only entries they held before and the one stored.
   */
  method Step(lru: QuickLRU<string, string>, cacheKey: string, key: string, pascalCase: bool,
              convert: (string, bool) -> string, now: int) returns (r: string)
    requires lru.Valid()
    modifies lru
    ensures lru.Valid() && lru.maxSize == old(lru.maxSize)
    ensures var found := Find(old(lru.cache), old(lru.oldCache), cacheKey);
      var hit := found.Some? && !IsExpired(found.value, now);
      var stored := Item(r, Expiry(now, lru.maxAge, None));
      && r == (if hit then found.value.value else convert(key, pascalCase))
      && (hit || Utf16Length(key) < StoreLimit ==> Find(lru.cache, lru.oldCache, cacheKey) == Some(if hit then found.value else stored))
      && (!hit && Utf16Length(key) >= StoreLimit ==> Find(lru.cache, lru.oldCache, cacheKey) == None)
      && (forall e :: e in lru.cache || e in lru.oldCache ==>
            e in old(lru.cache) || e in old(lru.oldCache) || e == (cacheKey, stored))
  {
    var hit := lru.Has(cacheKey, now);
    assert !hit ==> !Contains(lru.cache, cacheKey);
    ghost var recent := lru.cache;
    if hit {
      ghost var item := Find(lru.cache, lru.oldCache, cacheKey).value;
      var v := lru.Get(cacheKey, now);
      r := v.value;
      assert !Contains(recent, cacheKey) ==> recent + [(cacheKey, item)] == Insert(recent, cacheKey, item);
    } else {
      r := convert(key, pascalCase);
      if Utf16Length(key) < StoreLimit {
        ghost var stored := Item(r, Expiry(now, lru.maxAge, None));
        lru.Set(cacheKey, r, now, None);
        assert recent + [(cacheKey, stored)] == Insert(recent, cacheKey, stored);
      }
    }
  }

  /** The step as written, keyed by `CacheKeyAsWritten`. */
  method MapKeyAsWritten(lru: QuickLRU<string, string>, key: string, pascalCase: bool,
                         convert: (string, bool) -> string, now: int) returns (r: string)
    requires lru.Valid()
    modifies lru
    ensures lru.Valid() && lru.maxSize == old(lru.maxSize)
    ensures var found := Find(old(lru.cache), old(lru.oldCache), CacheKeyAsWritten(key, pascalCase));
      var hit := found.Some? && !IsExpired(found.value, now);
      && r == (if hit then found.value.value else convert(key, pascalCase))
      && (hit || Utf16Length(key) < StoreLimit ==>
            Find(lru.cache, lru.oldCache, CacheKeyAsWritten(key, pascalCase))
            == Some(if hit then found.value else Item(r, Expiry(now, lru.maxAge, None))))
      && (!hit && Utf16Length(key) >= StoreLimit ==> Find(lru.cache, lru.oldCache, CacheKeyAsWritten(key, pascalCase)) == None)
  {
    r := Step(lru, CacheKeyAsWritten(key, pascalCase), key, pascalCase, convert, now);
  }

  /**
    As written, converting "a_" without pascalCase and then "a" with it, on a
    fresh cache, answers the second conversion with the first one's result.
   */
  method StaleConversionAsWritten(convert: (string, bool) -> string) returns (first: string, second: string)
    requires convert("a_", false) != convert("a", true)
    ensures first == convert("a_", false) && second == first && second != convert("a", true)
  {
    var lru := new QuickLRU<string, string>(MemoSize, None);
    first := MapKeyAsWritten(lru, "a_", false, convert, 0);
    assert CacheKeyAsWritten("a", true) == "a_";
    second := MapKeyAsWritten(lru, "a", true, convert, 0);
  }

  /**
    The step keyed by `CacheKey`: on a coherent cache it returns exactly the
    conversion asked for, and the cache stays coherent.
   */
  method MapKey(lru: QuickLRU<string, string>, key: string, pascalCase: bool,
                convert: (string, bool) -> string, now: int) returns (r: string)
    requires lru.Valid() && Coherent(lru, convert)
    modifies lru
    ensures lru.Valid() && lru.maxSize == old(lru.maxSize) && Coherent(lru, convert)
    ensures r == convert(key, pascalCase)
    ensures Find(lru.cache, lru.oldCache, CacheKey(key, pascalCase)).Some? <==>
      old(Find(lru.cache, lru.oldCache, CacheKey(key, pascalCase))).Some? || Utf16Length(key) < StoreLimit
  {
    var cacheKey := CacheKey(key, pascalCase);
    ghost var found := Find(lru.cache, lru.oldCache, cacheKey);
    if found.Some? {
      assert Faithful(convert, (cacheKey, found.value));
      assert cacheKey[..|cacheKey| - 1] == key;
    }
    StoredIsFaithful(convert, key, pascalCase);
    r := Step(lru, cacheKey, key, pascalCase, convert, now);
  }
}
