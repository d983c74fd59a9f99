/**
  Client scenarios: runs of QuickLRU operations with the outcome the cache's
  design promises, first over every valid cache, then on concrete keys.
 */
module Scenarios {
  import opened Wrappers
  import opened OrderedMaps
  import opened Generations
  import opened Cache

  /**
    A value just set reads back, whatever the cache held before, provided
    its time-to-live is positive: through an in-place overwrite, an append,
    or an append that rolls the generations over.
   */
  method SetThenGet<K(==, !new), V>(lru: QuickLRU<K, V>, k: K, v: V, now: int) returns (r: Option<V>)
    requires lru.Valid() && (lru.maxAge.None? || lru.maxAge.value > 0)
    modifies lru
    ensures r == Some(v)
  {
    ghost var recent := lru.cache;
    ghost var item := Item(v, Expiry(now, lru.maxAge, None));
    lru.Set(k, v, now, None);
    if !Contains(recent, k) {
      assert recent + [(k, item)] == Insert(recent, k, item);
    }
    r := lru.Get(k, now);
  }

  /**
    Setting a key the cache already holds keeps the set of held keys, and a
    lookup then finds the new item. A rollover can only happen here when the
    old generation holds nothing but that key.
   */
  method SetHeldKey<K(==, !new), V>(lru: QuickLRU<K, V>, k: K, v: V, now: int)
    requires lru.Valid() && (Contains(lru.cache, k) || Contains(lru.oldCache, k))
    requires !Contains(lru.cache, k) && lru.count + 1 == lru.maxSize ==> KeySet(lru.oldCache) == {k}
    modifies lru
    ensures lru.Valid() && lru.maxSize == old(lru.maxSize)
    ensures KeySet(lru.cache) + KeySet(lru.oldCache) == old(KeySet(lru.cache) + KeySet(lru.oldCache))
    ensures Find(lru.cache, lru.oldCache, k) == Some(Item(v, Expiry(now, lru.maxAge, None)))
  {
    ghost var c1 := lru.cache;
    ghost var item := Item(v, Expiry(now, lru.maxAge, None));
    lru.Set(k, v, now, None);
    if !Contains(c1, k) {
      assert c1 + [(k, item)] == Insert(c1, k, item);
      KeySetAppend(c1, [(k, item)]);
      assert KeySet([(k, item)]) == {k} by { assert Keys([(k, item)]) == [k]; }
    }
  }

  /**
    Setting a key twice leaves the size as the first set left it, and the
    second value is the one read back.
   */
  method OverwriteKeepsSize<K(==, !new), V>(lru: QuickLRU<K, V>, k: K, v1: V, v2: V, now: int)
    returns (first: nat, second: nat, r: Option<V>)
    requires lru.Valid() && (lru.maxAge.None? || lru.maxAge.value > 0)
    modifies lru
    ensures r == Some(v2) && second == first
  {
    ghost var c0 := lru.cache;
    ghost var i1 := Item(v1, Expiry(now, lru.maxAge, None));
    lru.Set(k, v1, now, None);
    first := lru.Size();
    // The key is held now; when the recent generation lacks it, the set
    // rolled over and left it alone in the old generation.
    if !Contains(c0, k) {
      if lru.cache != [] {
        ContainsAt(lru.cache, |lru.cache| - 1);
      } else {
        ContainsAt(lru.oldCache, |lru.oldCache| - 1);
        if lru.count + 1 == lru.maxSize {
          assert c0 == [];
          assert KeySet(lru.oldCache) == {k} by { assert Keys(lru.oldCache) == [k]; }
        }
      }
    }
    SetHeldKey(lru, k, v2, now);
    second := lru.Size();
    r := lru.Get(k, now);
  }

  /** With `maxSize` 2, setting a then b rolls the generations over, with nothing to report. */
  method FillTwo() returns (lru: QuickLRU<char, int>)
    ensures fresh(lru) && lru.Valid() && lru.maxSize == 2 && lru.maxAge == None
    ensures lru.cache == [] && lru.count == 0 && lru.evicted == []
    ensures lru.oldCache == [('a', Item(1, None)), ('b', Item(2, None))]
  {
    lru := new QuickLRU<char, int>(2, None);
    lru.Set('a', 1, 0, None);
    assert lru.cache == [('a', Item(1, None))] && lru.count == 1;
    lru.Set('b', 2, 0, None);
  }

  /**
    Continuing from `FillTwo`: c starts a new recent generation, and reading
    a promotes it, which rolls over again and reports b, the only entry of
    the old generation left behind; b is then gone.
   */
  method PromotionRollsOver() returns (gotA: Option<int>, gotB: Option<int>, reported: seq<(char, int)>)
    ensures gotA == Some(1) && gotB == None && reported == [('b', 2)]
  {
    var a, b, c := ('a', Item(1, None)), ('b', Item(2, None)), ('c', Item(3, None));
    var lru := FillTwo();
    lru.Set('c', 3, 0, None);
    assert lru.cache == [c] && lru.count == 1;
    assert Keys([c]) == ['c'] && Keys([a, b]) == ['a', 'b'];
    assert Lookup([a, b], 'a') == a.1;
    assert RemoveAll([a, b], {'a'}) == [b];
    gotA := lru.Get('a', 0);
    assert lru.cache == [] && lru.oldCache == [c, a] && lru.evicted == [('b', 2)];
    assert Keys([c, a]) == ['c', 'a'];
    gotB := lru.Get('b', 0);
    reported := lru.evicted;
  }

  /**
    With a default time-to-live of 10, an entry set at instant 0 is read at
    instant 9, and at instant 10 it reads as missing, is reported once, and is
    gone from both generations.
   */
  method TtlExpiresOnRead() returns (early: Option<int>, late: Option<int>, reported: seq<(char, int)>)
    ensures early == Some(1) && late == None && reported == [('a', 1)]
  {
    var lru := new QuickLRU<char, int>(3, Some(10));
    lru.Set('a', 1, 0, None);
    assert lru.cache == [('a', Item(1, Some(10)))];
    early := lru.Get('a', 9);
    late := lru.Get('a', 10);
    assert lru.cache == [] && lru.oldCache == [];
    reported := lru.evicted;
  }

  /**
    Shrinking a cache that holds a then b to one entry reports a, the oldest,
    and keeps b as the whole old generation.
   */
  method ShrinkReportsOldest() returns (r: Outcome<ConfigError>, reported: seq<(char, int)>, kept: Generation<char, int>)
    ensures r == Pass && reported == [('a', 1)] && kept == [('b', Item(2, None))]
  {
    var a, b := ('a', Item(1, None)), ('b', Item(2, None));
    var lru := new QuickLRU<char, int>(3, None);
    lru.Set('a', 1, 0, None);
    lru.Set('b', 2, 0, None);
    assert lru.cache == [a, b] && lru.oldCache == [] && lru.evicted == [];
    AllLiveInOneGeneration([a, b], 0);
    r := lru.Resize(1, 0);
    assert [a, b][1..] == [b] && [a, b][..1] == [a];
    reported := lru.evicted;
    kept := lru.oldCache;
  }
}
