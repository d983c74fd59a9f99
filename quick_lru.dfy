/**
  QuickLRU: a bounded cache kept as two generations instead of a linked list.

  New keys go to the recent generation (`cache`) and are counted in `count`
  (the source's `_size`). When the count reaches `maxSize`, the old generation
  (`oldCache`) is reported to onEviction and dropped, the recent generation
  becomes the old one, and a new empty recent generation starts. A hit in the
  old generation moves the entry back into the recent one. Expiry is checked
  lazily, against the instant `now` each operation is given.

  onEviction is modelled by the log `evicted`: every (key, value) the source
  hands to the callback is appended to it, in call order.
 */
module Cache {
  import opened Wrappers
  import opened OrderedMaps
  import opened Generations

  /** The TypeErrors the constructor and `resize` throw. */
  datatype ConfigError = MaxSizeNotPositive | MaxAgeZero

  /**
    The constructor's checks: `maxSize` must be given and positive (checked
    first), and a numeric `maxAge` must not be 0.
   */
  function CheckOptions(maxSize: Option<int>, maxAge: Option<int>): (r: Outcome<ConfigError>)
    ensures r == Pass <==> maxSize.Some? && maxSize.value > 0 && maxAge != Some(0)
    ensures !(maxSize.Some? && maxSize.value > 0) ==> r == Fail(MaxSizeNotPositive)
  {
    if !(maxSize.Some? && maxSize.value > 0) then Fail(MaxSizeNotPositive)
    else if maxAge == Some(0) then Fail(MaxAgeZero)
    else Pass
  }

  /**
    The expiry `set` gives an entry, as the source computes it: a per-call
    `maxAge` is stored as it is, as if it were an absolute instant, while the
    instance's `maxAge` is added to `now`.
   */
  function ExpiryAsWritten(now: int, maxAge: Option<int>, perCall: Option<int>): Option<int>
  {
    if perCall.Some? then perCall
    else if maxAge.None? then None
    else Some(now + maxAge.value)
  }

  /**
    The expiry `set` gives an entry when both `maxAge`s are read as durations:
    the per-call one if given, else the instance's; none means never.
   */
  function Expiry(now: int, maxAge: Option<int>, perCall: Option<int>): Option<int>
  {
    var ttl := if perCall.Some? then perCall else maxAge;
    if ttl.None? then None else Some(now + ttl.value)
  }

  /**
    The expiry as written and the intended one agree exactly when no per-call
    `maxAge` is given or the clock reads 0.
   */
  lemma ExpiryAsWrittenAgrees(now: int, maxAge: Option<int>, perCall: Option<int>)
    ensures ExpiryAsWritten(now, maxAge, perCall) == Expiry(now, maxAge, perCall) <==> perCall.None? || now == 0
  {
  }

  /**
    An entry set at `now` with a time-to-live expires exactly that long
    afterwards, and one set without any never expires.
   */
  lemma ExpiryHonoursTtl<V>(v: V, now: int, maxAge: Option<int>, perCall: Option<int>, t: int)
    ensures var ttl := if perCall.Some? then perCall else maxAge;
      IsExpired(Item(v, Expiry(now, maxAge, perCall)), t) <==> ttl.Some? && t >= now + ttl.value
  {
  }

  /**
    As written, a per-call `maxAge` of 10 given at instant 1000 yields an entry
    that has already expired; read as a duration it lives until 1010.
   */
  lemma PerCallMaxAgeExpiresAtOnce<V>(v: V)
    ensures IsExpired(Item(v, ExpiryAsWritten(1000, None, Some(10))), 1000)
    ensures !IsExpired(Item(v, Expiry(1000, None, Some(10))), 1009)
  {
  }

  /**
    What `resize` keeps: the live entries, oldest first, all in the recent
    generation if there are fewer than `newSize`, and otherwise the newest
    `newSize` of them in the old generation. A traversal of the result
    yields exactly those entries and sweeps out nothing, and the result
    holds at most `newSize` keys.
   */
  lemma ResizeKeepsNewest<K(!new), V>(cache: Generation<K, V>, oldCache: Generation<K, V>, now: int, newSize: int)
    requires DistinctKeys(cache) && DistinctKeys(oldCache) && newSize > 0
    ensures var items := Ascending(cache, oldCache, now);
      var removeCount := |items| - newSize;
      var kept := if removeCount < 0 then items else items[removeCount..];
      var cache' := if removeCount < 0 then items else [];
      var oldCache' := if removeCount < 0 then [] else items[removeCount..];
      && Ascending(cache', oldCache', now) == kept
      && SweptOut(cache', oldCache', now) == []
      && |KeySet(cache') + KeySet(oldCache')| == |kept| <= newSize
  {
    var items := Ascending(cache, oldCache, now);
    var removeCount := |items| - newSize;
    AscendingDistinct(cache, oldCache, now);
    if removeCount < 0 {
      LiveSuffixInOneGeneration(items, 0, now);
      assert items[0..] == items;
    } else {
      LiveSuffixInOneGeneration(items, removeCount, now);
    }
  }

  /**
    The two generations of a valid cache hold at most `2 * maxSize - 1`
    distinct keys, expired ones included: fewer than `maxSize` recent ones
    and at most `maxSize` old ones.
   */
  lemma {:induction false} HeldKeysBound<K(!new), V>(cache: Generation<K, V>, oldCache: Generation<K, V>, maxSize: nat)
    requires DistinctKeys(cache) && DistinctKeys(oldCache)
    requires |cache| < maxSize && |oldCache| <= maxSize
    ensures |KeySet(cache) + KeySet(oldCache)| <= 2 * maxSize - 1
  {
    KeySetSize(cache);
    KeySetSize(oldCache);
    UnionBound(KeySet(cache), KeySet(oldCache));
  }

  lemma {:induction false} UnionBound<T>(a: set<T>, b: set<T>)
    ensures |a + b| <= |a| + |b|
    decreases |a|
  {
    if a != {} {
      var x :| x in a;
      UnionBound(a - {x}, b);
      assert a + b == (a - {x} + b) + {x};
    }
  }

  class QuickLRU<K(==, !new), V> {
    var maxSize: nat
    /** The default time-to-live; `None` is the source's `Number.POSITIVE_INFINITY`. */
    const maxAge: Option<int>
    /** The recent generation. */
    var cache: Generation<K, V>
    /** The previous generation. */
    var oldCache: Generation<K, V>
    /** Insertions into `cache` since the last rollover (the source's `_size`). */
    var count: nat
    /** Every (key, value) handed to onEviction, in order. */
    var evicted: seq<(K, V)>

    /**
      The object invariant: keys are distinct in each generation, `count`
      is the size of the recent generation and stays below `maxSize`, and the
      old generation holds at most `maxSize` entries.
     */
    ghost predicate Valid()
      reads this
    {
      && 0 < maxSize && maxAge != Some(0)
      && DistinctKeys(cache) && DistinctKeys(oldCache)
      && count == |cache| && count < maxSize && |oldCache| <= maxSize
    }

    constructor (maxSize: nat, maxAge: Option<int>)
      requires CheckOptions(Some(maxSize), maxAge) == Pass
      ensures Valid()
      ensures this.maxSize == maxSize && this.maxAge == maxAge
      ensures cache == [] && oldCache == [] && count == 0 && evicted == []
    {
      this.maxSize := maxSize;
      this.maxAge := maxAge;
      cache, oldCache, count, evicted := [], [], 0, [];
    }

    /** `new QuickLRU(options)`: throws on bad options, otherwise an empty cache. */
    static method Create(maxSize: Option<int>, maxAge: Option<int>) returns (r: Result<QuickLRU<K, V>, ConfigError>)
      ensures CheckOptions(maxSize, maxAge).Fail? ==> r == Err(CheckOptions(maxSize, maxAge).error)
      ensures CheckOptions(maxSize, maxAge) == Pass ==>
        && r.Ok? && fresh(r.value) && r.value.Valid()
        && r.value.maxSize == maxSize.value && r.value.maxAge == maxAge
        && r.value.cache == [] && r.value.oldCache == [] && r.value.count == 0 && r.value.evicted == []
    {
      var check := CheckOptions(maxSize, maxAge);
      if check.Fail? {
        return Err(check.error);
      }
      var lru := new QuickLRU(maxSize.value, maxAge);
      return Ok(lru);
    }

    /** `_emitEvictions`: reports every entry of `entries`, in order. */
    method EmitEvictions(entries: Generation<K, V>)
      modifies this`evicted
      ensures evicted == old(evicted) + Pairs(entries)
    {
      var i := 0;
      while i < |entries|
        invariant 0 <= i <= |entries|
        invariant evicted == old(evicted) + Pairs(entries[..i])
      {
        evicted := evicted + [(entries[i].0, entries[i].1.value)];
        i := i + 1;
      }
      assert entries[..i] == entries;
    }

    /** `delete`: removes `key` from both generations, without notification. */
    method Delete(key: K) returns (deleted: bool)
      requires Valid()
      modifies this
      ensures Valid() && maxSize == old(maxSize) && evicted == old(evicted)
      ensures deleted == (Contains(old(cache), key) || Contains(old(oldCache), key))
      ensures cache == Remove(old(cache), key) && oldCache == Remove(old(oldCache), key)
      ensures count == if Contains(old(cache), key) then old(count) - 1 else old(count)
    {
      var inRecent := Contains(cache, key);
      cache := Remove(cache, key);
      if inRecent {
        count := count - 1;
      }
      var inOld := Contains(oldCache, key);
      oldCache := Remove(oldCache, key);
      deleted := inOld || inRecent;
    }

    /** `clear`: empties both generations, without notification. */
    method Clear()
      requires Valid()
      modifies this
      ensures Valid() && maxSize == old(maxSize) && evicted == old(evicted)
      ensures cache == [] && oldCache == [] && count == 0
    {
      cache := [];
      oldCache := [];
      count := 0;
    }

    /**
      `_deleteIfExpired`: an expired item is reported and its key deleted from
      both generations; the answer is whether a generation held the key.
     */
    method DeleteIfExpired(key: K, item: Item<V>, now: int) returns (deleted: bool)
      requires Valid()
      modifies this
      ensures Valid() && maxSize == old(maxSize)
      ensures deleted == (IsExpired(item, now) && (Contains(old(cache), key) || Contains(old(oldCache), key)))
      ensures IsExpired(item, now) ==>
        && cache == Remove(old(cache), key) && oldCache == Remove(old(oldCache), key)
        && evicted == old(evicted) + [(key, item.value)]
      ensures !IsExpired(item, now) ==>
        cache == old(cache) && oldCache == old(oldCache) && count == old(count) && evicted == old(evicted)
    {
      if IsExpired(item, now) {
        evicted := evicted + [(key, item.value)];
        deleted := Delete(key);
      } else {
        deleted := false;
      }
    }

    /** `_getOrDeleteIfExpired`: the item's value, unless it expired and was deleted. */
    method GetOrDeleteIfExpired(key: K, item: Item<V>, now: int) returns (r: Option<V>)
      requires Valid()
      modifies this
      ensures Valid() && maxSize == old(maxSize)
      ensures r == if IsExpired(item, now) && (Contains(old(cache), key) || Contains(old(oldCache), key))
                   then None else Some(item.value)
      ensures IsExpired(item, now) ==>
        && cache == Remove(old(cache), key) && oldCache == Remove(old(oldCache), key)
        && evicted == old(evicted) + [(key, item.value)]
      ensures !IsExpired(item, now) ==>
        cache == old(cache) && oldCache == old(oldCache) && count == old(count) && evicted == old(evicted)
    {
      var deleted := DeleteIfExpired(key, item, now);
      if !deleted {
        r := Some(item.value);
      } else {
        r := None;
      }
    }

    /** `_getItemValue`: the expiry check is skipped for an item whose expiry is not truthy. */
    method GetItemValue(key: K, item: Item<V>, now: int) returns (r: Option<V>)
      requires Valid()
      modifies this
      ensures Valid() && maxSize == old(maxSize)
      ensures r == if ReadsAsExpired(item, now) && (Contains(old(cache), key) || Contains(old(oldCache), key))
                   then None else Some(item.value)
      ensures ReadsAsExpired(item, now) ==>
        && cache == Remove(old(cache), key) && oldCache == Remove(old(oldCache), key)
        && evicted == old(evicted) + [(key, item.value)]
      ensures !ReadsAsExpired(item, now) ==>
        cache == old(cache) && oldCache == old(oldCache) && count == old(count) && evicted == old(evicted)
    {
      if item.expiry.Some? && item.expiry.value != 0 {
        r := GetOrDeleteIfExpired(key, item, now);
      } else {
        r := Some(item.value);
      }
    }

    /** `_peek(key, generation)`: reads the item `generation` holds for `key`. */
    method PeekIn(key: K, generation: Generation<K, V>, now: int) returns (r: Option<V>)
      requires Valid() && Contains(generation, key)
      modifies this
      ensures Valid() && maxSize == old(maxSize)
      ensures var item := Lookup(generation, key);
        && r == (if ReadsAsExpired(item, now) && (Contains(old(cache), key) || Contains(old(oldCache), key))
                 then None else Some(item.value))
        && (ReadsAsExpired(item, now) ==>
              && cache == Remove(old(cache), key) && oldCache == Remove(old(oldCache), key)
              && evicted == old(evicted) + [(key, item.value)])
        && (!ReadsAsExpired(item, now) ==>
              cache == old(cache) && oldCache == old(oldCache) && count == old(count) && evicted == old(evicted))
    {
      var item := Lookup(generation, key);
      r := GetItemValue(key, item, now);
    }

    /**
      `_set`: appends a new key to the recent generation and counts it; when
      the count reaches `maxSize` the generations roll over, reporting every
      entry of the old generation, in its order.
     */
    method SetRecent(key: K, item: Item<V>)
      requires Valid() && !Contains(cache, key)
      modifies this
      ensures Valid() && maxSize == old(maxSize)
      ensures old(count) + 1 < maxSize ==>
        && cache == old(cache) + [(key, item)] && count == old(count) + 1
        && oldCache == old(oldCache) && evicted == old(evicted)
      ensures old(count) + 1 == maxSize ==>
        && cache == [] && count == 0
        && oldCache == old(cache) + [(key, item)] && evicted == old(evicted) + Pairs(old(oldCache))
    {
      cache := Insert(cache, key, item);
      count := count + 1;
      if count >= maxSize {
        count := 0;
        EmitEvictions(oldCache);
        oldCache := cache;
        cache := [];
      }
    }

    /** `_moveToRecent`: takes `key` out of the old generation and adds it to the recent one. */
    method MoveToRecent(key: K, item: Item<V>)
      requires Valid() && !Contains(cache, key)
      modifies this
      ensures Valid() && maxSize == old(maxSize)
      ensures var rest := Remove(old(oldCache), key);
        && (old(count) + 1 < maxSize ==>
              && cache == old(cache) + [(key, item)] && count == old(count) + 1
              && oldCache == rest && evicted == old(evicted))
        && (old(count) + 1 == maxSize ==>
              && cache == [] && count == 0
              && oldCache == old(cache) + [(key, item)] && evicted == old(evicted) + Pairs(rest))
    {
      oldCache := Remove(oldCache, key);
      SetRecent(key, item);
    }

    /**
      `get`: a recent hit returns the value unless its truthy expiry has
      passed; an old hit that has not expired is promoted into the recent
      generation, which counts as an insertion and can roll the generations
      over. A key held by the recent generation is never looked up in the old.
     */
    method Get(key: K, now: int) returns (r: Option<V>)
      requires Valid()
      modifies this
      ensures Valid() && maxSize == old(maxSize)
      ensures Contains(old(cache), key) ==>
        var item := Lookup(old(cache), key);
        if ReadsAsExpired(item, now) then
          && r == None && evicted == old(evicted) + [(key, item.value)]
          && cache == Remove(old(cache), key) && oldCache == Remove(old(oldCache), key)
        else
          && r == Some(item.value)
          && cache == old(cache) && oldCache == old(oldCache) && count == old(count) && evicted == old(evicted)
      ensures !Contains(old(cache), key) && Contains(old(oldCache), key) ==>
        var item := Lookup(old(oldCache), key);
        var rest := Remove(old(oldCache), key);
        if IsExpired(item, now) then
          && r == None && evicted == old(evicted) + [(key, item.value)]
          && cache == old(cache) && count == old(count) && oldCache == rest
        else if old(count) + 1 < maxSize then
          && r == Some(item.value) && evicted == old(evicted)
          && cache == old(cache) + [(key, item)] && count == old(count) + 1 && oldCache == rest
        else
          && r == Some(item.value) && evicted == old(evicted) + Pairs(rest)
          && cache == [] && count == 0 && oldCache == old(cache) + [(key, item)]
      ensures !Contains(old(cache), key) && !Contains(old(oldCache), key) ==>
        && r == None
        && cache == old(cache) && oldCache == old(oldCache) && count == old(count) && evicted == old(evicted)
    {
      if Contains(cache, key) {
        var item := Lookup(cache, key);
        r := GetItemValue(key, item, now);
        return;
      }
      if Contains(oldCache, key) {
        var item := Lookup(oldCache, key);
        var deleted := DeleteIfExpired(key, item, now);
        if !deleted {
          MoveToRecent(key, item);
          return Some(item.value);
        }
      }
      r := None;
    }

    /**
      `set`: a key the recent generation holds is overwritten in place, with
      no count and no rollover; any other key is added through `_set`.
     */
    method Set(key: K, value: V, now: int, perCallMaxAge: Option<int>)
      requires Valid()
      modifies this
      ensures Valid() && maxSize == old(maxSize)
      ensures var item := Item(value, Expiry(now, maxAge, perCallMaxAge));
        if Contains(old(cache), key) then
          && cache == Insert(old(cache), key, item)
          && oldCache == old(oldCache) && count == old(count) && evicted == old(evicted)
        else if old(count) + 1 < maxSize then
          && cache == old(cache) + [(key, item)] && count == old(count) + 1
          && oldCache == old(oldCache) && evicted == old(evicted)
        else
          && cache == [] && count == 0
          && oldCache == old(cache) + [(key, item)] && evicted == old(evicted) + Pairs(old(oldCache))
    {
      var item := Item(value, Expiry(now, maxAge, perCallMaxAge));
      if Contains(cache, key) {
        cache := Insert(cache, key, item);
      } else {
        SetRecent(key, item);
      }
    }

    /**
      `has`: whether the item a lookup finds is live; an expired one is
      reported and deleted. Nothing moves between generations.
     */
    method Has(key: K, now: int) returns (b: bool)
      requires Valid()
      modifies this
      ensures Valid() && maxSize == old(maxSize)
      ensures var found := Find(old(cache), old(oldCache), key);
        && b == (found.Some? && !IsExpired(found.value, now))
        && (found.Some? && IsExpired(found.value, now) ==>
              && cache == Remove(old(cache), key) && oldCache == Remove(old(oldCache), key)
              && evicted == old(evicted) + [(key, found.value.value)])
        && (!(found.Some? && IsExpired(found.value, now)) ==>
              cache == old(cache) && oldCache == old(oldCache) && count == old(count) && evicted == old(evicted))
    {
      if Contains(cache, key) {
        var deleted := DeleteIfExpired(key, Lookup(cache, key), now);
        return !deleted;
      }
      if Contains(oldCache, key) {
        var deleted := DeleteIfExpired(key, Lookup(oldCache, key), now);
        return !deleted;
      }
      return false;
    }

    /**
      `peek`: the value of the item a lookup finds, with the same truthy-expiry
      check as `get`, and without moving anything between generations.
     */
    method Peek(key: K, now: int) returns (r: Option<V>)
      requires Valid()
      modifies this
      ensures Valid() && maxSize == old(maxSize)
      ensures var found := Find(old(cache), old(oldCache), key);
        && r == (if found.None? || ReadsAsExpired(found.value, now) then None else Some(found.value.value))
        && (found.Some? && ReadsAsExpired(found.value, now) ==>
              && cache == Remove(old(cache), key) && oldCache == Remove(old(oldCache), key)
              && evicted == old(evicted) + [(key, found.value.value)])
        && (!(found.Some? && ReadsAsExpired(found.value, now)) ==>
              cache == old(cache) && oldCache == old(oldCache) && count == old(count) && evicted == old(evicted))
    {
      if Contains(cache, key) {
        r := PeekIn(key, cache, now);
        return;
      }
      if Contains(oldCache, key) {
        r := PeekIn(key, oldCache, now);
        return;
      }
      r := None;
    }
  
    /**
      What a traversal does with one entry: when it is visited (always, or,
      when `skipShadowed`, only if the recent generation does not hold its
      key), `_deleteIfExpired` runs on it, and it is kept unless deleted.
     */
    method VisitEntry(e: (K, Item<V>), now: int, skipShadowed: bool) returns (kept: bool)
      requires Valid() && (Contains(cache, e.0) || Contains(oldCache, e.0))
      modifies this
      ensures Valid() && maxSize == old(maxSize)
      ensures var one := Seen([e], old(cache), skipShadowed);
        var gone := KeySet(ExpiredEntries(one, now));
        && (if kept then [e] else []) == LiveEntries(one, now)
        && evicted == old(evicted) + Pairs(ExpiredEntries(one, now))
        && cache == RemoveAll(old(cache), gone) && oldCache == RemoveAll(old(oldCache), gone)
      ensures skipShadowed ==> cache == old(cache)
    {
      VisitOutcome(e, cache, oldCache, skipShadowed, now);
      if !skipShadowed || !Contains(cache, e.0) {
        var deleted := DeleteIfExpired(e.0, e.1, now);
        kept := !deleted;
      } else {
        kept := false;
      }
    }

    /**
      Step `i` of a forward traversal over the snapshot `entries`: given the
      state after visiting `entries[..i]`, visiting `entries[i]` leaves the
      state after visiting `entries[..i + 1]`.
     */
    method VisitForwardAt(entries: Generation<K, V>, i: nat, ghost c0: Generation<K, V>, ghost o0: Generation<K, V>,
                          ghost log: seq<(K, V)>, now: int, skipShadowed: bool, live: Generation<K, V>)
      returns (live': Generation<K, V>)
      requires Valid() && DistinctKeys(entries) && i < |entries|
      requires Contains(c0, entries[i].0) || Contains(o0, entries[i].0)
      requires live == LiveEntries(Seen(entries[..i], c0, skipShadowed), now)
      requires evicted == log + Pairs(ExpiredEntries(Seen(entries[..i], c0, skipShadowed), now))
      requires cache == RemoveAll(c0, KeySet(ExpiredEntries(Seen(entries[..i], c0, skipShadowed), now)))
      requires oldCache == RemoveAll(o0, KeySet(ExpiredEntries(Seen(entries[..i], c0, skipShadowed), now)))
      requires skipShadowed ==> cache == c0
      modifies this
      ensures Valid() && maxSize == old(maxSize)
      ensures live' == LiveEntries(Seen(entries[..i + 1], c0, skipShadowed), now)
      ensures evicted == log + Pairs(ExpiredEntries(Seen(entries[..i + 1], c0, skipShadowed), now))
      ensures cache == RemoveAll(c0, KeySet(ExpiredEntries(Seen(entries[..i + 1], c0, skipShadowed), now)))
      ensures oldCache == RemoveAll(o0, KeySet(ExpiredEntries(Seen(entries[..i + 1], c0, skipShadowed), now)))
      ensures skipShadowed ==> cache == c0
    {
      ghost var seen, one := Seen(entries[..i], c0, skipShadowed), Seen([entries[i]], c0, skipShadowed);
      ForwardStep(entries, i, c0, o0, skipShadowed, now);
      assert Seen([entries[i]], cache, skipShadowed) == one;
      var kept := VisitEntry(entries[i], now, skipShadowed);
      live' := if kept then live + [entries[i]] else live;
      AppendAssociates(log, Pairs(ExpiredEntries(seen, now)), Pairs(ExpiredEntries(one, now)));
      assert evicted == log + (Pairs(ExpiredEntries(seen, now)) + Pairs(ExpiredEntries(one, now)));
    }

    /**
      Step `i - 1` of a backward traversal over the snapshot `entries`: given
      the state after visiting `entries[i..]` from the end, visiting
      `entries[i - 1]` leaves the state after visiting `entries[i - 1..]`.
     */
    method VisitBackwardAt(entries: Generation<K, V>, i: nat, ghost c0: Generation<K, V>, ghost o0: Generation<K, V>,
                           ghost log: seq<(K, V)>, now: int, skipShadowed: bool, live: Generation<K, V>)
      returns (live': Generation<K, V>)
      requires Valid() && DistinctKeys(entries) && 0 < i <= |entries|
      requires Contains(c0, entries[i - 1].0) || Contains(o0, entries[i - 1].0)
      requires live == Reverse(LiveEntries(Seen(entries[i..], c0, skipShadowed), now))
      requires evicted == log + Pairs(Reverse(ExpiredEntries(Seen(entries[i..], c0, skipShadowed), now)))
      requires cache == RemoveAll(c0, KeySet(ExpiredEntries(Seen(entries[i..], c0, skipShadowed), now)))
      requires oldCache == RemoveAll(o0, KeySet(ExpiredEntries(Seen(entries[i..], c0, skipShadowed), now)))
      requires skipShadowed ==> cache == c0
      modifies this
      ensures Valid() && maxSize == old(maxSize)
      ensures live' == Reverse(LiveEntries(Seen(entries[i - 1..], c0, skipShadowed), now))
      ensures evicted == log + Pairs(Reverse(ExpiredEntries(Seen(entries[i - 1..], c0, skipShadowed), now)))
      ensures cache == RemoveAll(c0, KeySet(ExpiredEntries(Seen(entries[i - 1..], c0, skipShadowed), now)))
      ensures oldCache == RemoveAll(o0, KeySet(ExpiredEntries(Seen(entries[i - 1..], c0, skipShadowed), now)))
      ensures skipShadowed ==> cache == c0
    {
      ghost var seen, one := Seen(entries[i..], c0, skipShadowed), Seen([entries[i - 1]], c0, skipShadowed);
      BackwardStep(entries, i, c0, o0, skipShadowed, now);
      assert Seen([entries[i - 1]], cache, skipShadowed) == one;
      var kept := VisitEntry(entries[i - 1], now, skipShadowed);
      live' := if kept then live + [entries[i - 1]] else live;
      AppendAssociates(log, Pairs(Reverse(ExpiredEntries(seen, now))), Pairs(ExpiredEntries(one, now)));
      assert evicted == log + (Pairs(Reverse(ExpiredEntries(seen, now))) + Pairs(ExpiredEntries(one, now)));
    }

    /**
      One pass of a forward traversal over the snapshot `entries`: every entry
      goes through `VisitEntry`, and the kept ones are yielded.
     */
    method Visit(entries: Generation<K, V>, now: int, skipShadowed: bool) returns (live: Generation<K, V>)
      requires Valid() && DistinctKeys(entries)
      requires forall k :: Contains(entries, k) ==> Contains(cache, k) || Contains(oldCache, k)
      modifies this
      ensures Valid() && maxSize == old(maxSize)
      ensures var seen := Seen(entries, old(cache), skipShadowed);
        var gone := KeySet(ExpiredEntries(seen, now));
        && live == LiveEntries(seen, now)
        && evicted == old(evicted) + Pairs(ExpiredEntries(seen, now))
        && cache == RemoveAll(old(cache), gone) && oldCache == RemoveAll(old(oldCache), gone)
      ensures skipShadowed ==> cache == old(cache)
    {
      ghost var c0, o0 := cache, oldCache;
      assert entries[..0] == [];
      EmptyTraversal(entries[..0], c0, o0, skipShadowed, now);
      live := [];
      var i := 0;
      while i < |entries|
        invariant 0 <= i <= |entries|
        invariant Valid() && maxSize == old(maxSize)
        invariant live == LiveEntries(Seen(entries[..i], c0, skipShadowed), now)
        invariant evicted == old(evicted) + Pairs(ExpiredEntries(Seen(entries[..i], c0, skipShadowed), now))
        invariant cache == RemoveAll(c0, KeySet(ExpiredEntries(Seen(entries[..i], c0, skipShadowed), now)))
        invariant oldCache == RemoveAll(o0, KeySet(ExpiredEntries(Seen(entries[..i], c0, skipShadowed), now)))
        invariant skipShadowed ==> cache == c0
      {
        ContainsAt(entries, i);
        live := VisitForwardAt(entries, i, c0, o0, old(evicted), now, skipShadowed, live);
        i := i + 1;
      }
      assert entries[..i] == entries;
    }

    /**
      One pass of `entriesDescending` over the snapshot `entries`: the same as
      `Visit`, walking from the last entry to the first.
     */
    method VisitBackward(entries: Generation<K, V>, now: int, skipShadowed: bool) returns (live: Generation<K, V>)
      requires Valid() && DistinctKeys(entries)
      requires forall k :: Contains(entries, k) ==> Contains(cache, k) || Contains(oldCache, k)
      modifies this
      ensures Valid() && maxSize == old(maxSize)
      ensures var seen := Seen(entries, old(cache), skipShadowed);
        var gone := KeySet(ExpiredEntries(seen, now));
        && live == Reverse(LiveEntries(seen, now))
        && evicted == old(evicted) + Pairs(Reverse(ExpiredEntries(seen, now)))
        && cache == RemoveAll(old(cache), gone) && oldCache == RemoveAll(old(oldCache), gone)
      ensures skipShadowed ==> cache == old(cache)
    {
      ghost var c0, o0 := cache, oldCache;
      assert entries[|entries|..] == [];
      EmptyTraversal(entries[|entries|..], c0, o0, skipShadowed, now);
      live := [];
      var i := |entries|;
      while i > 0
        invariant 0 <= i <= |entries|
        invariant Valid() && maxSize == old(maxSize)
        invariant live == Reverse(LiveEntries(Seen(entries[i..], c0, skipShadowed), now))
        invariant evicted == old(evicted) + Pairs(Reverse(ExpiredEntries(Seen(entries[i..], c0, skipShadowed), now)))
        invariant cache == RemoveAll(c0, KeySet(ExpiredEntries(Seen(entries[i..], c0, skipShadowed), now)))
        invariant oldCache == RemoveAll(o0, KeySet(ExpiredEntries(Seen(entries[i..], c0, skipShadowed), now)))
        invariant skipShadowed ==> cache == c0
      {
        ContainsAt(entries, i - 1);
        live := VisitBackwardAt(entries, i, c0, o0, old(evicted), now, skipShadowed, live);
        i := i - 1;
      }
      assert entries[i..] == entries;
      assert Seen(entries[i..], c0, skipShadowed) == Seen(entries, old(cache), skipShadowed);
    }

    /**
      `_entriesAscending`, run to the end: the old generation's unshadowed
      entries, then the recent generation's, oldest first, each with its item;
      the expired ones are reported and deleted on the way instead.
     */
    method EntriesAscendingRaw(now: int) returns (items: Generation<K, V>)
      requires Valid()
      modifies this
      ensures Valid() && maxSize == old(maxSize)
      ensures items == Ascending(old(cache), old(oldCache), now)
      ensures evicted == old(evicted) + Pairs(SweptOut(old(cache), old(oldCache), now))
      ensures var gone := SweepKeys(old(cache), old(oldCache), now);
        cache == RemoveAll(old(cache), gone) && oldCache == RemoveAll(old(oldCache), gone)
    {
      ghost var c0, o0 := cache, oldCache;
      AscendingSweep(c0, o0, now);
      var older := Visit(oldCache, now, true);
      var recent := Visit(cache, now, false);
      items := older + recent;
      AppendAssociates(old(evicted), Pairs(ExpiredEntries(Seen(o0, c0, true), now)),
                       Pairs(ExpiredEntries(Seen(c0, c0, false), now)));
    }

    /** `entriesAscending`: the (key, value) pairs of `_entriesAscending`. */
    method EntriesAscending(now: int) returns (r: seq<(K, V)>)
      requires Valid()
      modifies this
      ensures Valid() && maxSize == old(maxSize)
      ensures r == Pairs(Ascending(old(cache), old(oldCache), now))
      ensures evicted == old(evicted) + Pairs(SweptOut(old(cache), old(oldCache), now))
      ensures var gone := SweepKeys(old(cache), old(oldCache), now);
        cache == RemoveAll(old(cache), gone) && oldCache == RemoveAll(old(oldCache), gone)
    {
      var items := EntriesAscendingRaw(now);
      r := Pairs(items);
    }

    /**
      `[Symbol.iterator]`: the recent generation's live entries, then the old
      generation's unshadowed live ones. It yields what `entriesAscending`
      does, in another order, and leaves the same state behind; only the order
      of the reports differs.
     */
    method Entries(now: int) returns (r: seq<(K, V)>)
      requires Valid()
      modifies this
      ensures Valid() && maxSize == old(maxSize)
      ensures r == Pairs(RecentFirst(old(cache), old(oldCache), now))
      ensures evicted == old(evicted) + Pairs(ExpiredEntries(old(cache), now))
                                      + Pairs(ExpiredEntries(Unshadowed(old(oldCache), old(cache)), now))
      ensures var gone := SweepKeys(old(cache), old(oldCache), now);
        cache == RemoveAll(old(cache), gone) && oldCache == RemoveAll(old(oldCache), gone)
    {
      ghost var c0, o0 := cache, oldCache;
      RecentFirstSweep(c0, o0, now);
      var recent := Visit(cache, now, false);
      var older := Visit(oldCache, now, true);
      r := Pairs(recent + older);
    }

    /**
      `entriesDescending`: the recent generation's live entries from the
      newest, then the old generation's unshadowed live ones from the newest,
      which is `entriesAscending` reversed; the reports come in that order too.
     */
    method EntriesDescending(now: int) returns (r: seq<(K, V)>)
      requires Valid()
      modifies this
      ensures Valid() && maxSize == old(maxSize)
      ensures r == Pairs(Reverse(Ascending(old(cache), old(oldCache), now)))
      ensures evicted == old(evicted) + Pairs(Reverse(SweptOut(old(cache), old(oldCache), now)))
      ensures var gone := SweepKeys(old(cache), old(oldCache), now);
        cache == RemoveAll(old(cache), gone) && oldCache == RemoveAll(old(oldCache), gone)
    {
      ghost var c0, o0 := cache, oldCache;
      RecentFirstSweep(c0, o0, now);
      var recent := VisitBackward(cache, now, false);
      var older := VisitBackward(oldCache, now, true);
      r := Pairs(recent + older);
      ghost var u := Unshadowed(o0, c0);
      SweepKeysSplit(c0, o0, now);
      ReverseAppend(LiveEntries(u, now), LiveEntries(c0, now));
      ReverseAppend(ExpiredEntries(u, now), ExpiredEntries(c0, now));
      PairsAppend(Reverse(ExpiredEntries(c0, now)), Reverse(ExpiredEntries(u, now)));
      AppendAssociates(old(evicted), Pairs(Reverse(ExpiredEntries(c0, now))), Pairs(Reverse(ExpiredEntries(u, now))));
    }

    /** `keys`: the keys of what the default iterator yields. */
    method Keys(now: int) returns (r: seq<K>)
      requires Valid()
      modifies this
      ensures Valid() && maxSize == old(maxSize)
      ensures r == OrderedMaps.Keys(RecentFirst(old(cache), old(oldCache), now))
      ensures evicted == old(evicted) + Pairs(ExpiredEntries(old(cache), now))
                                      + Pairs(ExpiredEntries(Unshadowed(old(oldCache), old(cache)), now))
      ensures var gone := SweepKeys(old(cache), old(oldCache), now);
        cache == RemoveAll(old(cache), gone) && oldCache == RemoveAll(old(oldCache), gone)
    {
      var entries := Entries(now);
      r := OrderedMaps.Keys(entries);
    }

    /** `values`: the values of what the default iterator yields. */
    method Values(now: int) returns (r: seq<V>)
      requires Valid()
      modifies this
      ensures Valid() && maxSize == old(maxSize)
      ensures r == OrderedMaps.Values(Pairs(RecentFirst(old(cache), old(oldCache), now)))
      ensures evicted == old(evicted) + Pairs(ExpiredEntries(old(cache), now))
                                      + Pairs(ExpiredEntries(Unshadowed(old(oldCache), old(cache)), now))
      ensures var gone := SweepKeys(old(cache), old(oldCache), now);
        cache == RemoveAll(old(cache), gone) && oldCache == RemoveAll(old(oldCache), gone)
    {
      var entries := Entries(now);
      r := OrderedMaps.Values(entries);
    }

    /**
      The `size` getter: the number of distinct keys the two generations
      hold, expired ones included, capped at `maxSize`. Nothing is deleted.
     */
    method Size() returns (s: nat)
      requires Valid()
      ensures s == Min(|KeySet(cache) + KeySet(oldCache)|, maxSize)
    {
      VisibleCount(cache, oldCache);
      if count == 0 {
        UnshadowedByNothing(oldCache);
        return |oldCache|;
      }
      var oldCacheSize := 0;
      var i := 0;
      while i < |oldCache|
        invariant 0 <= i <= |oldCache|
        invariant oldCacheSize == |Unshadowed(oldCache[..i], cache)|
      {
        UnshadowedCountAt(oldCache, i, cache);
        if !Contains(cache, oldCache[i].0) {
          oldCacheSize := oldCacheSize + 1;
        }
        i := i + 1;
      }
      assert oldCache[..i] == oldCache;
      s := Min(count + oldCacheSize, maxSize);
    }

    /**
      `resize`: a size that is not positive is refused. Otherwise the live
      entries, oldest first, are collected (reporting and deleting the expired
      ones); if they fit, they all become the recent generation; if not, the
      oldest ones that do not fit are reported and the newest `newSize` become
      the old generation.
     */
    method Resize(newSize: int, now: int) returns (r: Outcome<ConfigError>)
      requires Valid()
      modifies this
      ensures Valid()
      ensures newSize <= 0 ==> r == Fail(MaxSizeNotPositive) && unchanged(this)
      ensures newSize > 0 ==>
        var items := Ascending(old(cache), old(oldCache), now);
        var removeCount := |items| - newSize;
        && r == Pass && maxSize == newSize
        && (removeCount < 0 ==>
              && cache == items && oldCache == [] && count == |items|
              && evicted == old(evicted) + Pairs(SweptOut(old(cache), old(oldCache), now)))
        && (removeCount >= 0 ==>
              && cache == [] && oldCache == items[removeCount..] && count == 0
              && evicted == old(evicted) + Pairs(SweptOut(old(cache), old(oldCache), now)) + Pairs(items[..removeCount]))
    {
      if !(newSize > 0) {
        return Fail(MaxSizeNotPositive);
      }
      ghost var c0, o0 := cache, oldCache;
      AscendingDistinct(c0, o0, now);
      var items := EntriesAscendingRaw(now);
      var removeCount := |items| - newSize;
      if removeCount < 0 {
        cache := items;
        oldCache := [];
        count := |items|;
      } else {
        if removeCount > 0 {
          EmitEvictions(items[..removeCount]);
        } else {
          assert items[..removeCount] == [];
        }
        oldCache := items[removeCount..];
        DistinctSuffix(items, removeCount);
        cache := [];
        count := 0;
      }
      maxSize := newSize;
      r := Pass;
    }
  }
}
