/**
  The two generations of QuickLRU as values: entries, expiry, which entries a
  reader sees, and what a full traversal leaves behind.
 */
module Generations {
  import opened Wrappers
  import opened OrderedMaps

  /** A stored value with its absolute expiry instant (`None`: never expires). */
  datatype Item<V> = Item(value: V, expiry: Option<int>)

  /** One generation: an insertion-ordered map from keys to items. */
  type Generation<K, V> = seq<(K, Item<V>)>

  /** The test of `_deleteIfExpired`: a numeric expiry at or before `now`. */
  predicate IsExpired<V>(item: Item<V>, now: int)
  {
    item.expiry.Some? && item.expiry.value <= now
  }

  /** Once expired, an item stays expired at every later instant. */
  lemma ExpiredStaysExpired<V>(item: Item<V>, now: int, later: int)
    requires now <= later && IsExpired(item, now)
    ensures IsExpired(item, later)
  {
  }

  /**
    The test `_getItemValue` applies before it looks at the clock: the expiry
    must be truthy, so an expiry of exactly 0 is never checked there.
   */
  predicate ReadsAsExpired<V>(item: Item<V>, now: int)
  {
    item.expiry.Some? && item.expiry.value != 0 && IsExpired(item, now)
  }

  /**
    The truthy test is the stricter one, and the two tests disagree exactly
    on an item whose expiry is 0, from instant 0 on.
   */
  lemma TruthyExpiryTest<V>(item: Item<V>, now: int)
    ensures ReadsAsExpired(item, now) ==> IsExpired(item, now)
    ensures ReadsAsExpired(item, now) != IsExpired(item, now) <==> item.expiry == Some(0) && now >= 0
  {
  }

  /** The entries of `m` that have not expired at `now`, in order. */
  function LiveEntries<K, V>(m: Generation<K, V>, now: int): (r: Generation<K, V>)
    ensures |r| <= |m|
    ensures forall e {:trigger e in r} :: e in r ==> e in m && !IsExpired(e.1, now)
  {
    if m == [] then []
    else (if IsExpired(m[0].1, now) then [] else [m[0]]) + LiveEntries(m[1..], now)
  }

  /** The entries of `m` that have expired at `now`, in order. */
  function ExpiredEntries<K, V>(m: Generation<K, V>, now: int): (r: Generation<K, V>)
    ensures |r| <= |m|
    ensures forall e {:trigger e in r} :: e in r ==> e in m && IsExpired(e.1, now)
  {
    if m == [] then []
    else (if IsExpired(m[0].1, now) then [m[0]] else []) + ExpiredEntries(m[1..], now)
  }

  /** The (key, value) pairs a traversal hands out, or reports to onEviction. */
  function Pairs<K, V>(m: Generation<K, V>): (r: seq<(K, V)>)
    ensures |r| == |m|
    ensures forall i {:trigger r[i]} :: 0 <= i < |m| ==> r[i] == (m[i].0, m[i].1.value)
  {
    if m == [] then [] else [(m[0].0, m[0].1.value)] + Pairs(m[1..])
  }

  /** The elements of `s`, last first. */
  function Reverse<T>(s: seq<T>): (r: seq<T>)
    ensures |r| == |s|
    ensures forall i {:trigger r[i]} :: 0 <= i < |s| ==> r[i] == s[|s| - 1 - i]
  {
    if s == [] then [] else Reverse(s[1..]) + [s[0]]
  }

  /** The entries of the old generation whose key the recent one does not shadow. */
  function Unshadowed<K(==, !new), V>(oldCache: Generation<K, V>, cache: Generation<K, V>): Generation<K, V>
  {
    RemoveAll(oldCache, KeySet(cache))
  }

  /**
    The item a lookup finds: the recent generation's if it holds the key, and
    only otherwise the old generation's.
   */
  function Find<K(==, !new), V>(cache: Generation<K, V>, oldCache: Generation<K, V>, k: K): (r: Option<Item<V>>)
    ensures r.Some? <==> Contains(cache, k) || Contains(oldCache, k)
    ensures Contains(cache, k) ==> r == Some(Lookup(cache, k))
    ensures r.Some? ==> (k, r.value) in cache || (k, r.value) in oldCache
  {
    if Contains(cache, k) then Some(Lookup(cache, k))
    else if Contains(oldCache, k) then Some(Lookup(oldCache, k))
    else None
  }

  /** Every entry visible to a reader, oldest first: unshadowed old entries, then recent ones. */
  function Visible<K(==, !new), V>(cache: Generation<K, V>, oldCache: Generation<K, V>): Generation<K, V>
  {
    Unshadowed(oldCache, cache) + cache
  }

  /** What `_entriesAscending` yields: the visible entries that are still live. */
  function Ascending<K(==, !new), V>(cache: Generation<K, V>, oldCache: Generation<K, V>, now: int): Generation<K, V>
  {
    LiveEntries(Visible(cache, oldCache), now)
  }

  /** The visible entries that have expired: a traversal reports and deletes these. */
  function SweptOut<K(==, !new), V>(cache: Generation<K, V>, oldCache: Generation<K, V>, now: int): Generation<K, V>
  {
    ExpiredEntries(Visible(cache, oldCache), now)
  }

  /** The keys a full traversal deletes from both generations. */
  function SweepKeys<K(==, !new), V>(cache: Generation<K, V>, oldCache: Generation<K, V>, now: int): set<K>
  {
    KeySet(SweptOut(cache, oldCache, now))
  }

  // ---------------------------------------------------------------------------
  // Lemmas about the filters

  lemma {:induction false} LiveAppend<K, V>(a: Generation<K, V>, b: Generation<K, V>, now: int)
    ensures LiveEntries(a + b, now) == LiveEntries(a, now) + LiveEntries(b, now)
  {
    if a == [] {
      assert a + b == b;
    } else {
      assert (a + b)[1..] == a[1..] + b;
      LiveAppend(a[1..], b, now);
      var head := if IsExpired(a[0].1, now) then [] else [a[0]];
      AppendAssociates(head, LiveEntries(a[1..], now), LiveEntries(b, now));
    }
  }

  lemma {:induction false} ExpiredAppend<K, V>(a: Generation<K, V>, b: Generation<K, V>, now: int)
    ensures ExpiredEntries(a + b, now) == ExpiredEntries(a, now) + ExpiredEntries(b, now)
  {
    if a == [] {
      assert a + b == b;
    } else {
      assert (a + b)[1..] == a[1..] + b;
      ExpiredAppend(a[1..], b, now);
      var head := if IsExpired(a[0].1, now) then [a[0]] else [];
      AppendAssociates(head, ExpiredEntries(a[1..], now), ExpiredEntries(b, now));
    }
  }

  lemma PairsAppend<K, V>(a: Generation<K, V>, b: Generation<K, V>)
    ensures Pairs(a + b) == Pairs(a) + Pairs(b)
  {
  }

  /** Filtering out expired entries a second time changes nothing; none expired are left. */
  lemma {:induction false} LiveIsLive<K, V>(m: Generation<K, V>, now: int)
    ensures LiveEntries(LiveEntries(m, now), now) == LiveEntries(m, now)
    ensures ExpiredEntries(LiveEntries(m, now), now) == []
  {
    if m != [] {
      LiveIsLive(m[1..], now);
      var head := if IsExpired(m[0].1, now) then [] else [m[0]];
      LiveAppend(head, LiveEntries(m[1..], now), now);
      ExpiredAppend(head, LiveEntries(m[1..], now), now);
    }
  }

  /** Every key is either on a live entry or on an expired one. */
  lemma {:induction false} KeySetSplit<K(!new), V>(m: Generation<K, V>, now: int)
    ensures KeySet(m) == KeySet(LiveEntries(m, now)) + KeySet(ExpiredEntries(m, now))
  {
    if m != [] {
      var e, rest := m[0], m[1..];
      KeySetSplit(rest, now);
      assert m == [e] + rest;
      KeySetCons(e, rest);
      if IsExpired(e.1, now) {
        assert LiveEntries(m, now) == LiveEntries(rest, now);
        assert ExpiredEntries(m, now) == [e] + ExpiredEntries(rest, now);
        KeySetCons(e, ExpiredEntries(rest, now));
      } else {
        assert LiveEntries(m, now) == [e] + LiveEntries(rest, now);
        assert ExpiredEntries(m, now) == ExpiredEntries(rest, now);
        KeySetCons(e, LiveEntries(rest, now));
      }
    } else {
      assert KeySet(m) == {} by { assert Keys(m) == []; }
    }
  }

  /**
    Deleting the keys of the expired entries of a list with distinct keys
    leaves exactly its live entries.
   */
  lemma {:induction false} RemoveExpiredLeavesLive<K(!new), V>(m: Generation<K, V>, now: int)
    requires DistinctKeys(m)
    ensures RemoveAll(m, KeySet(ExpiredEntries(m, now))) == LiveEntries(m, now)
  {
    if m != [] {
      var x := KeySet(ExpiredEntries(m, now));
      var x' := KeySet(ExpiredEntries(m[1..], now));
      RemoveExpiredLeavesLive(m[1..], now);
      assert Keys(m) == [m[0].0] + Keys(m[1..]);
      assert !Contains(m[1..], m[0].0);
      KeySetSplit(m[1..], now);
      assert KeySet(m[1..]) == KeySet(LiveEntries(m[1..], now)) + x';
      ExpiredKeysPresent(m[1..], now);
      assert m[0].0 !in KeySet(m[1..]);
      var dead := if IsExpired(m[0].1, now) then [m[0]] else [];
      ExpiredAppend(dead, m[1..], now);
      assert m == dead + m[1..] || m == [m[0]] + m[1..];
      KeySetAppend(dead, ExpiredEntries(m[1..], now));
      assert KeySet(dead) == if IsExpired(m[0].1, now) then {m[0].0} else {} by {
        assert Keys(dead) == if IsExpired(m[0].1, now) then [m[0].0] else [];
      }
      assert x == KeySet(dead) + x';
      RemoveAllPresent(m[1..], x, x');
    }
  }

  /** The keys of the expired entries are keys of the list. */
  lemma {:induction false} ExpiredKeysPresent<K(!new), V>(m: Generation<K, V>, now: int)
    ensures KeySet(ExpiredEntries(m, now)) <= KeySet(m)
  {
    KeySetSplit(m, now);
  }

  /** The unshadowed old entries hold exactly the old keys the recent generation lacks. */
  lemma UnshadowedKeys<K(!new), V>(oldCache: Generation<K, V>, cache: Generation<K, V>)
    ensures KeySet(Unshadowed(oldCache, cache)) == KeySet(oldCache) - KeySet(cache)
  {
    forall k
      ensures k in KeySet(Unshadowed(oldCache, cache)) <==> k in KeySet(oldCache) - KeySet(cache)
    {
      assert Contains(Unshadowed(oldCache, cache), k) <==> Contains(oldCache, k) && k !in KeySet(cache);
    }
  }

  // ---------------------------------------------------------------------------
  // Traversals

  /**
    The entries of `entries` a traversal hands to `_deleteIfExpired`: all of
    them, or, when it skips shadowed keys, those whose key `cache` does not hold.
   */
  function Seen<K(==, !new), V>(entries: Generation<K, V>, cache: Generation<K, V>, skipShadowed: bool): Generation<K, V>
  {
    if skipShadowed then Unshadowed(entries, cache) else entries
  }

  /** A traversal of two lists one after the other sees, keeps and deletes what it would for each. */
  lemma SeenAppend<K(!new), V>(a: Generation<K, V>, b: Generation<K, V>, cache: Generation<K, V>, skipShadowed: bool, now: int)
    ensures Seen(a + b, cache, skipShadowed) == Seen(a, cache, skipShadowed) + Seen(b, cache, skipShadowed)
    ensures LiveEntries(Seen(a + b, cache, skipShadowed), now)
         == LiveEntries(Seen(a, cache, skipShadowed), now) + LiveEntries(Seen(b, cache, skipShadowed), now)
    ensures ExpiredEntries(Seen(a + b, cache, skipShadowed), now)
         == ExpiredEntries(Seen(a, cache, skipShadowed), now) + ExpiredEntries(Seen(b, cache, skipShadowed), now)
    ensures KeySet(ExpiredEntries(Seen(a + b, cache, skipShadowed), now))
         == KeySet(ExpiredEntries(Seen(a, cache, skipShadowed), now)) + KeySet(ExpiredEntries(Seen(b, cache, skipShadowed), now))
  {
    RemoveAllAppend(a, b, KeySet(cache));
    var sa, sb := Seen(a, cache, skipShadowed), Seen(b, cache, skipShadowed);
    LiveAppend(sa, sb, now);
    ExpiredAppend(sa, sb, now);
    KeySetAppend(ExpiredEntries(sa, now), ExpiredEntries(sb, now));
  }

  /** What a traversal does with one entry. */
  lemma SeenOne<K(!new), V>(e: (K, Item<V>), cache: Generation<K, V>, skipShadowed: bool, now: int)
    ensures var visited := !skipShadowed || !Contains(cache, e.0);
      && Seen([e], cache, skipShadowed) == (if visited then [e] else [])
      && LiveEntries(Seen([e], cache, skipShadowed), now) == (if visited && !IsExpired(e.1, now) then [e] else [])
      && ExpiredEntries(Seen([e], cache, skipShadowed), now) == (if visited && IsExpired(e.1, now) then [e] else [])
      && KeySet(ExpiredEntries(Seen([e], cache, skipShadowed), now)) == (if visited && IsExpired(e.1, now) then {e.0} else {})
  {
    assert Keys([e]) == [e.0];
    assert [e][1..] == [];
    var none: Generation<K, V> := [];
    assert KeySet(none) == {} by { assert Keys(none) == []; }
  }

  /**
    The state a traversal leaves after one entry: a visited expired entry is
    deleted from both generations by key and reported; otherwise nothing is
    deleted or reported, and a visited entry is kept.
   */
  lemma VisitOutcome<K(!new), V>(e: (K, Item<V>), cache: Generation<K, V>, oldCache: Generation<K, V>,
                                 skipShadowed: bool, now: int)
    ensures var visited := !skipShadowed || !Contains(cache, e.0);
      var one := Seen([e], cache, skipShadowed);
      var gone := KeySet(ExpiredEntries(one, now));
      if visited && IsExpired(e.1, now) then
        && LiveEntries(one, now) == [] && Pairs(ExpiredEntries(one, now)) == [(e.0, e.1.value)]
        && RemoveAll(cache, gone) == Remove(cache, e.0) && RemoveAll(oldCache, gone) == Remove(oldCache, e.0)
      else
        && LiveEntries(one, now) == (if visited then [e] else []) && Pairs(ExpiredEntries(one, now)) == []
        && RemoveAll(cache, gone) == cache && RemoveAll(oldCache, gone) == oldCache
  {
    SeenOne(e, cache, skipShadowed, now);
    var visited := !skipShadowed || !Contains(cache, e.0);
    if visited && IsExpired(e.1, now) {
      assert Pairs([e]) == [(e.0, e.1.value)];
    } else {
      RemoveAbsent(cache, {});
      RemoveAbsent(oldCache, {});
    }
  }

  /** A traversal only deletes keys of the entries it was given. */
  lemma SeenKeys<K(!new), V>(entries: Generation<K, V>, cache: Generation<K, V>, skipShadowed: bool, now: int)
    ensures KeySet(ExpiredEntries(Seen(entries, cache, skipShadowed), now)) <= KeySet(entries)
    ensures skipShadowed ==> KeySet(ExpiredEntries(Seen(entries, cache, skipShadowed), now)) !! KeySet(cache)
  {
    var seen := Seen(entries, cache, skipShadowed);
    ExpiredKeysPresent(seen, now);
    forall k | k in KeySet(ExpiredEntries(seen, now))
      ensures k in KeySet(entries) && (skipShadowed ==> k !in KeySet(cache))
    {
      assert Contains(seen, k);
    }
  }

  /**
    A traversal that visits `prefix` then `suffix` keeps what visiting each
    keeps, one after the other.
   */
  lemma SeenLiveStep<K(!new), V>(prefix: Generation<K, V>, suffix: Generation<K, V>, cache: Generation<K, V>,
                                  skipShadowed: bool, now: int)
    ensures LiveEntries(Seen(prefix + suffix, cache, skipShadowed), now)
         == LiveEntries(Seen(prefix, cache, skipShadowed), now) + LiveEntries(Seen(suffix, cache, skipShadowed), now)
  {
    SeenAppend(prefix, suffix, cache, skipShadowed, now);
  }

  /** ... and reports what visiting each reports, one after the other. */
  lemma SeenReportStep<K(!new), V>(prefix: Generation<K, V>, suffix: Generation<K, V>, cache: Generation<K, V>,
                                    skipShadowed: bool, now: int)
    ensures Pairs(ExpiredEntries(Seen(prefix + suffix, cache, skipShadowed), now))
         == Pairs(ExpiredEntries(Seen(prefix, cache, skipShadowed), now)) + Pairs(ExpiredEntries(Seen(suffix, cache, skipShadowed), now))
  {
    SeenAppend(prefix, suffix, cache, skipShadowed, now);
    PairsAppend(ExpiredEntries(Seen(prefix, cache, skipShadowed), now), ExpiredEntries(Seen(suffix, cache, skipShadowed), now));
  }

  /** ... and deletes, from any list, what visiting each deletes, in either order. */
  lemma SeenDeleteStep<K(!new), V>(prefix: Generation<K, V>, suffix: Generation<K, V>, cache: Generation<K, V>,
                                    skipShadowed: bool, now: int, a: Generation<K, V>)
    ensures var first, second := KeySet(ExpiredEntries(Seen(prefix, cache, skipShadowed), now)),
                                 KeySet(ExpiredEntries(Seen(suffix, cache, skipShadowed), now));
      var both := KeySet(ExpiredEntries(Seen(prefix + suffix, cache, skipShadowed), now));
      && RemoveAll(RemoveAll(a, first), second) == RemoveAll(a, both)
      && RemoveAll(RemoveAll(a, second), first) == RemoveAll(a, both)
  {
    SeenAppend(prefix, suffix, cache, skipShadowed, now);
    var first, second := KeySet(ExpiredEntries(Seen(prefix, cache, skipShadowed), now)),
                         KeySet(ExpiredEntries(Seen(suffix, cache, skipShadowed), now));
    RemoveAllTwice(a, first, second);
    RemoveAllTwice(a, second, first);
    assert first + second == second + first;
  }

  /** A backward traversal keeps, reversed, what visiting the suffix keeps, then what visiting `e` keeps. */
  lemma SeenLiveStepBack<K(!new), V>(e: (K, Item<V>), suffix: Generation<K, V>, cache: Generation<K, V>,
                                      skipShadowed: bool, now: int)
    ensures Reverse(LiveEntries(Seen([e] + suffix, cache, skipShadowed), now))
         == Reverse(LiveEntries(Seen(suffix, cache, skipShadowed), now)) + LiveEntries(Seen([e], cache, skipShadowed), now)
  {
    var one := Seen([e], cache, skipShadowed);
    SeenAppend([e], suffix, cache, skipShadowed, now);
    ReverseAppend(LiveEntries(one, now), LiveEntries(Seen(suffix, cache, skipShadowed), now));
    SeenOne(e, cache, skipShadowed, now);
  }

  /** ... and reports, reversed, what visiting the suffix reports, then what visiting `e` reports. */
  lemma SeenReportStepBack<K(!new), V>(e: (K, Item<V>), suffix: Generation<K, V>, cache: Generation<K, V>,
                                        skipShadowed: bool, now: int)
    ensures Pairs(Reverse(ExpiredEntries(Seen([e] + suffix, cache, skipShadowed), now)))
         == Pairs(Reverse(ExpiredEntries(Seen(suffix, cache, skipShadowed), now))) + Pairs(ExpiredEntries(Seen([e], cache, skipShadowed), now))
  {
    var one, rest := Seen([e], cache, skipShadowed), Seen(suffix, cache, skipShadowed);
    SeenAppend([e], suffix, cache, skipShadowed, now);
    ReverseAppend(ExpiredEntries(one, now), ExpiredEntries(rest, now));
    SeenOne(e, cache, skipShadowed, now);
    PairsAppend(Reverse(ExpiredEntries(rest, now)), ExpiredEntries(one, now));
  }

  /** A traversal of `visited` does not delete a key `visited` does not hold. */
  lemma UnvisitedRemains<K(!new), V>(visited: Generation<K, V>, k: K, cache: Generation<K, V>,
                                      skipShadowed: bool, now: int, a: Generation<K, V>)
    requires !Contains(visited, k) && Contains(a, k)
    ensures Contains(RemoveAll(a, KeySet(ExpiredEntries(Seen(visited, cache, skipShadowed), now))), k)
  {
    SeenKeys(visited, cache, skipShadowed, now);
  }

  /** Concatenation is associative. */
  lemma AppendAssociates<T>(a: seq<T>, b: seq<T>, c: seq<T>)
    ensures (a + b) + c == a + (b + c)
  {
  }

  /**
    Visiting entry `i` of a forward traversal over `entries`: what the prefix
    up to and including it keeps, reports and deletes is what the prefix
    before it does, followed by what the entry itself does; and the entry's
    key is still in one of the generations when its turn comes.
   */
  lemma ForwardStep<K(!new), V>(entries: Generation<K, V>, i: nat, cache: Generation<K, V>, oldCache: Generation<K, V>,
                                 skipShadowed: bool, now: int)
    requires DistinctKeys(entries) && i < |entries|
    requires Contains(cache, entries[i].0) || Contains(oldCache, entries[i].0)
    ensures var seen, one, seen' := Seen(entries[..i], cache, skipShadowed), Seen([entries[i]], cache, skipShadowed),
                                    Seen(entries[..i + 1], cache, skipShadowed);
      var gone, goneOne := KeySet(ExpiredEntries(seen, now)), KeySet(ExpiredEntries(one, now));
      && LiveEntries(seen', now) == LiveEntries(seen, now) + LiveEntries(one, now)
      && Pairs(ExpiredEntries(seen', now)) == Pairs(ExpiredEntries(seen, now)) + Pairs(ExpiredEntries(one, now))
      && RemoveAll(cache, KeySet(ExpiredEntries(seen', now))) == RemoveAll(RemoveAll(cache, gone), goneOne)
      && RemoveAll(oldCache, KeySet(ExpiredEntries(seen', now))) == RemoveAll(RemoveAll(oldCache, gone), goneOne)
      && (Contains(RemoveAll(cache, gone), entries[i].0) || Contains(RemoveAll(oldCache, gone), entries[i].0))
  {
    var e := entries[i];
    assert entries[..i + 1] == entries[..i] + [e];
    SeenLiveStep(entries[..i], [e], cache, skipShadowed, now);
    SeenReportStep(entries[..i], [e], cache, skipShadowed, now);
    SeenDeleteStep(entries[..i], [e], cache, skipShadowed, now, cache);
    SeenDeleteStep(entries[..i], [e], cache, skipShadowed, now, oldCache);
    DistinctAround(entries, i);
    if Contains(cache, e.0) {
      UnvisitedRemains(entries[..i], e.0, cache, skipShadowed, now, cache);
    } else {
      UnvisitedRemains(entries[..i], e.0, cache, skipShadowed, now, oldCache);
    }
  }

  /**
    Visiting entry `i - 1` of a backward traversal over `entries`: the
    suffix from it on keeps, in reverse, what the suffix after it does,
    followed by what the entry itself does; likewise for what it reports.
   */
  lemma BackwardStep<K(!new), V>(entries: Generation<K, V>, i: nat, cache: Generation<K, V>, oldCache: Generation<K, V>,
                                  skipShadowed: bool, now: int)
    requires DistinctKeys(entries) && 0 < i <= |entries|
    requires Contains(cache, entries[i - 1].0) || Contains(oldCache, entries[i - 1].0)
    ensures var seen, one, seen' := Seen(entries[i..], cache, skipShadowed), Seen([entries[i - 1]], cache, skipShadowed),
                                    Seen(entries[i - 1..], cache, skipShadowed);
      var gone, goneOne := KeySet(ExpiredEntries(seen, now)), KeySet(ExpiredEntries(one, now));
      && Reverse(LiveEntries(seen', now)) == Reverse(LiveEntries(seen, now)) + LiveEntries(one, now)
      && Pairs(Reverse(ExpiredEntries(seen', now)))
         == Pairs(Reverse(ExpiredEntries(seen, now))) + Pairs(ExpiredEntries(one, now))
      && RemoveAll(cache, KeySet(ExpiredEntries(seen', now))) == RemoveAll(RemoveAll(cache, gone), goneOne)
      && RemoveAll(oldCache, KeySet(ExpiredEntries(seen', now))) == RemoveAll(RemoveAll(oldCache, gone), goneOne)
      && (Contains(RemoveAll(cache, gone), entries[i - 1].0) || Contains(RemoveAll(oldCache, gone), entries[i - 1].0))
  {
    var e := entries[i - 1];
    assert entries[i - 1..] == [e] + entries[i..];
    SeenLiveStepBack(e, entries[i..], cache, skipShadowed, now);
    SeenReportStepBack(e, entries[i..], cache, skipShadowed, now);
    SeenDeleteStep([e], entries[i..], cache, skipShadowed, now, cache);
    SeenDeleteStep([e], entries[i..], cache, skipShadowed, now, oldCache);
    DistinctAround(entries, i - 1);
    if Contains(cache, e.0) {
      UnvisitedRemains(entries[i..], e.0, cache, skipShadowed, now, cache);
    } else {
      UnvisitedRemains(entries[i..], e.0, cache, skipShadowed, now, oldCache);
    }
  }

  /** A traversal of nothing keeps, reports and deletes nothing. */
  lemma EmptyTraversal<K(!new), V>(none: Generation<K, V>, cache: Generation<K, V>, oldCache: Generation<K, V>,
                                    skipShadowed: bool, now: int)
    requires none == []
    ensures var seen := Seen(none, cache, skipShadowed);
      && LiveEntries(seen, now) == [] && Reverse(LiveEntries(seen, now)) == []
      && Pairs(ExpiredEntries(seen, now)) == [] && Pairs(Reverse(ExpiredEntries(seen, now))) == []
      && RemoveAll(cache, KeySet(ExpiredEntries(seen, now))) == cache
      && RemoveAll(oldCache, KeySet(ExpiredEntries(seen, now))) == oldCache
  {
    assert KeySet(none) == {} by { assert Keys(none) == []; }
    RemoveAbsent(cache, {});
    RemoveAbsent(oldCache, {});
  }

  lemma ReverseAppend<T>(a: seq<T>, b: seq<T>)
    ensures Reverse(a + b) == Reverse(b) + Reverse(a)
  {
  }

  /** Reporting a generation backwards reports the pairs of its entries, last first. */
  lemma {:induction false} PairsReverse<K, V>(m: Generation<K, V>)
    ensures Pairs(Reverse(m)) == Reverse(Pairs(m))
  {
    if m != [] {
      var p := Pairs(m);
      PairsReverse(m[1..]);
      PairsAppend(Reverse(m[1..]), [m[0]]);
      assert p == [p[0]] + Pairs(m[1..]);
      assert Reverse(p) == Reverse(Pairs(m[1..])) + [p[0]];
    }
  }

  /**
    Deleting the recent generation's expired keys from both generations leaves
    the same old entries unshadowed.
   */
  lemma UnshadowedAfterRecentSweep<K(!new), V>(cache: Generation<K, V>, oldCache: Generation<K, V>, now: int)
    requires DistinctKeys(cache)
    ensures var gone := KeySet(ExpiredEntries(cache, now));
      Unshadowed(RemoveAll(oldCache, gone), RemoveAll(cache, gone)) == Unshadowed(oldCache, cache)
  {
    var gone := KeySet(ExpiredEntries(cache, now));
    RemoveExpiredLeavesLive(cache, now);
    KeySetSplit(cache, now);
    RemoveAllTwice(oldCache, gone, KeySet(RemoveAll(cache, gone)));
    assert gone + KeySet(RemoveAll(cache, gone)) == KeySet(cache);
  }

  /**
    A full traversal's deletions split into those of the old generation's
    unshadowed entries and those of the recent generation's entries.
   */
  lemma SweepKeysSplit<K(!new), V>(cache: Generation<K, V>, oldCache: Generation<K, V>, now: int)
    ensures SweptOut(cache, oldCache, now) == ExpiredEntries(Unshadowed(oldCache, cache), now) + ExpiredEntries(cache, now)
    ensures Ascending(cache, oldCache, now) == LiveEntries(Unshadowed(oldCache, cache), now) + LiveEntries(cache, now)
    ensures SweepKeys(cache, oldCache, now)
         == KeySet(ExpiredEntries(Unshadowed(oldCache, cache), now)) + KeySet(ExpiredEntries(cache, now))
    ensures KeySet(ExpiredEntries(Unshadowed(oldCache, cache), now)) !! KeySet(cache)
  {
    var u := Unshadowed(oldCache, cache);
    LiveAppend(u, cache, now);
    ExpiredAppend(u, cache, now);
    KeySetAppend(ExpiredEntries(u, now), ExpiredEntries(cache, now));
    SeenKeys(oldCache, cache, true, now);
  }

  /**
    Expiry is reported once: after a traversal has deleted what it swept out,
    a second traversal at the same instant sweeps out nothing and yields the
    same entries.
   */
  lemma SweepIsIdempotent<K(!new), V>(cache: Generation<K, V>, oldCache: Generation<K, V>, now: int)
    requires DistinctKeys(cache) && DistinctKeys(oldCache)
    ensures var gone := SweepKeys(cache, oldCache, now);
      && SweptOut(RemoveAll(cache, gone), RemoveAll(oldCache, gone), now) == []
      && Ascending(RemoveAll(cache, gone), RemoveAll(oldCache, gone), now) == Ascending(cache, oldCache, now)
  {
    var u := Unshadowed(oldCache, cache);
    var fromOld, fromRecent := KeySet(ExpiredEntries(u, now)), KeySet(ExpiredEntries(cache, now));
    var gone := SweepKeys(cache, oldCache, now);
    SweepKeysSplit(cache, oldCache, now);
    // The recent generation loses exactly its expired entries.
    RemoveAllPresent(cache, gone, fromRecent);
    RemoveExpiredLeavesLive(cache, now);
    var cache' := RemoveAll(cache, gone);
    assert cache' == LiveEntries(cache, now);
    // The old generation's unshadowed part loses exactly its expired entries.
    var oldCache' := RemoveAll(oldCache, gone);
    KeySetSplit(cache, now);
    RemoveAllTwice(oldCache, gone, KeySet(cache'));
    RemoveAllTwice(oldCache, KeySet(cache), fromOld);
    assert gone + KeySet(cache') == KeySet(cache) + fromOld;
    RemoveExpiredLeavesLive(u, now);
    assert Unshadowed(oldCache', cache') == LiveEntries(u, now);
    // Both parts are now live.
    LiveIsLive(u, now);
    LiveIsLive(cache, now);
    SweepKeysSplit(cache', oldCache', now);
  }

  /**
    A lookup and a traversal agree: a key is found live by the lookup exactly
    when the traversal yields an entry for it.
   */
  lemma FindAgreesWithAscending<K(!new), V>(cache: Generation<K, V>, oldCache: Generation<K, V>, k: K, now: int)
    requires DistinctKeys(cache) && DistinctKeys(oldCache)
    ensures var found := Find(cache, oldCache, k);
      (found.Some? && !IsExpired(found.value, now)) <==> Contains(Ascending(cache, oldCache, now), k)
  {
    var u := Unshadowed(oldCache, cache);
    var liveOld, liveRecent := LiveEntries(u, now), LiveEntries(cache, now);
    SweepKeysSplit(cache, oldCache, now);
    assert Keys(liveOld + liveRecent) == Keys(liveOld) + Keys(liveRecent);
    LiveKeys(cache, k, now);
    LiveKeys(u, k, now);
    if !Contains(cache, k) && Contains(oldCache, k) {
      DistinctLookup(oldCache, (k, Lookup(u, k)));
    }
  }

  /** In a list with distinct keys, a key is on a live entry exactly when the entry found for it is live. */
  lemma {:induction false} LiveKeys<K(!new), V>(m: Generation<K, V>, k: K, now: int)
    requires DistinctKeys(m)
    ensures Contains(LiveEntries(m, now), k) <==> Contains(m, k) && !IsExpired(Lookup(m, k), now)
  {
    if m != [] {
      var head := if IsExpired(m[0].1, now) then [] else [m[0]];
      var rest := LiveEntries(m[1..], now);
      assert LiveEntries(m, now) == head + rest;
      assert Keys(head + rest) == Keys(head) + Keys(rest);
      assert Keys(head) == if IsExpired(m[0].1, now) then [] else [m[0].0];
      assert Keys(m) == [m[0].0] + Keys(m[1..]);
      LiveKeys(m[1..], k, now);
      LookupAt(m, 0);
      if k != m[0].0 && Contains(m[1..], k) {
        var j := IndexOf(m[1..], k);
        LookupAt(m[1..], j);
        LookupAt(m, j + 1);
      }
    }
  }

  /** In a list with distinct keys, an entry it holds is the one found for its key. */
  lemma DistinctLookup<K(!new), V>(m: Generation<K, V>, e: (K, Item<V>))
    requires DistinctKeys(m) && e in m
    ensures Contains(m, e.0) && Lookup(m, e.0) == e.1
  {
    var i :| 0 <= i < |m| && m[i] == e;
    LookupAt(m, i);
  }

  /**
    What the default iterator yields: the live recent entries, then the live
    unshadowed old ones; the same entries as `Ascending`, generation order swapped.
   */
  function RecentFirst<K(==, !new), V>(cache: Generation<K, V>, oldCache: Generation<K, V>, now: int): (r: Generation<K, V>)
    ensures multiset(r) == multiset(Ascending(cache, oldCache, now))
  {
    SweepKeysSplit(cache, oldCache, now);
    LiveEntries(cache, now) + LiveEntries(Unshadowed(oldCache, cache), now)
  }

  /** A key on an entry of a filtered list is a key of the list. */
  lemma LiveContains<K(!new), V>(m: Generation<K, V>, k: K, now: int)
    requires Contains(LiveEntries(m, now), k)
    ensures Contains(m, k)
  {
    var r := LiveEntries(m, now);
    var i := IndexOf(r, k);
    assert r[i] in r;
    var j :| 0 <= j < |m| && m[j] == r[i];
    ContainsAt(m, j);
  }

  /** The filtered list of a list with distinct keys has distinct keys. */
  lemma LiveDistinct<K(!new), V>(m: Generation<K, V>, now: int)
    requires DistinctKeys(m)
    ensures DistinctKeys(LiveEntries(m, now))
  {
    RemoveExpiredLeavesLive(m, now);
  }

  /** Every key occurs at most once in what `_entriesAscending` yields. */
  lemma AscendingDistinct<K(!new), V>(cache: Generation<K, V>, oldCache: Generation<K, V>, now: int)
    requires DistinctKeys(cache) && DistinctKeys(oldCache)
    ensures DistinctKeys(Ascending(cache, oldCache, now))
  {
    var u := Unshadowed(oldCache, cache);
    SweepKeysSplit(cache, oldCache, now);
    LiveDistinct(u, now);
    LiveDistinct(cache, now);
    forall k | Contains(LiveEntries(u, now), k)
      ensures !Contains(LiveEntries(cache, now), k)
    {
      LiveContains(u, k, now);
      if Contains(LiveEntries(cache, now), k) {
        LiveContains(cache, k, now);
      }
    }
    DistinctAppend(LiveEntries(u, now), LiveEntries(cache, now));
  }

  /**
    What `_entriesAscending` leaves behind, pass by pass: the old generation's
    pass (which skips shadowed keys) followed by the recent generation's pass
    deletes, from both generations, exactly the keys swept out, and reports
    the two passes' expired entries in ascending order.
   */
  lemma AscendingSweep<K(!new), V>(cache: Generation<K, V>, oldCache: Generation<K, V>, now: int)
    ensures var fromOld, fromRecent := KeySet(ExpiredEntries(Seen(oldCache, cache, true), now)),
                                       KeySet(ExpiredEntries(Seen(cache, cache, false), now));
      var gone := SweepKeys(cache, oldCache, now);
      && LiveEntries(Seen(oldCache, cache, true), now) + LiveEntries(Seen(cache, cache, false), now)
         == Ascending(cache, oldCache, now)
      && Pairs(ExpiredEntries(Seen(oldCache, cache, true), now)) + Pairs(ExpiredEntries(Seen(cache, cache, false), now))
         == Pairs(SweptOut(cache, oldCache, now))
      && RemoveAll(cache, fromRecent) == RemoveAll(cache, gone)
      && RemoveAll(RemoveAll(oldCache, fromOld), fromRecent) == RemoveAll(oldCache, gone)
  {
    var u := Unshadowed(oldCache, cache);
    var fromOld, fromRecent := KeySet(ExpiredEntries(u, now)), KeySet(ExpiredEntries(cache, now));
    SweepKeysSplit(cache, oldCache, now);
    PairsAppend(ExpiredEntries(u, now), ExpiredEntries(cache, now));
    RemoveAllPresent(cache, fromRecent, fromOld + fromRecent);
    RemoveAllTwice(oldCache, fromOld, fromRecent);
  }

  /**
    What the default iterator leaves behind, pass by pass: the recent
    generation's pass followed by the old generation's pass (which skips the
    keys the recent generation still holds) deletes, from both generations,
    exactly the keys `_entriesAscending` would, and sees the same old entries.
   */
  lemma RecentFirstSweep<K(!new), V>(cache: Generation<K, V>, oldCache: Generation<K, V>, now: int)
    requires DistinctKeys(cache)
    ensures var fromRecent := KeySet(ExpiredEntries(Seen(cache, cache, false), now));
      var cache', oldCache' := RemoveAll(cache, fromRecent), RemoveAll(oldCache, fromRecent);
      var fromOld := KeySet(ExpiredEntries(Seen(oldCache', cache', true), now));
      var gone := SweepKeys(cache, oldCache, now);
      && Seen(oldCache', cache', true) == Unshadowed(oldCache, cache)
      && cache' == RemoveAll(cache, gone)
      && RemoveAll(oldCache', fromOld) == RemoveAll(oldCache, gone)
  {
    var u := Unshadowed(oldCache, cache);
    var fromOld, fromRecent := KeySet(ExpiredEntries(u, now)), KeySet(ExpiredEntries(cache, now));
    UnshadowedAfterRecentSweep(cache, oldCache, now);
    SweepKeysSplit(cache, oldCache, now);
    RemoveAllPresent(cache, fromRecent, fromOld + fromRecent);
    RemoveAllTwice(oldCache, fromRecent, fromOld);
    assert fromRecent + fromOld == fromOld + fromRecent;
  }

  /** A list none of whose entries has expired is its own live part. */
  lemma {:induction false} NoneExpired<K, V>(m: Generation<K, V>, now: int)
    requires forall i :: 0 <= i < |m| ==> !IsExpired(m[i].1, now)
    ensures LiveEntries(m, now) == m && ExpiredEntries(m, now) == []
  {
    if m != [] {
      NoneExpired(m[1..], now);
    }
  }

  /**
    The number of distinct keys the two generations hold: every key of the
    recent generation, and the old generation's unshadowed ones.
   */
  lemma VisibleCount<K(!new), V>(cache: Generation<K, V>, oldCache: Generation<K, V>)
    requires DistinctKeys(cache) && DistinctKeys(oldCache)
    ensures |cache| + |Unshadowed(oldCache, cache)| == |KeySet(cache) + KeySet(oldCache)|
  {
    var u := Unshadowed(oldCache, cache);
    KeySetSize(cache);
    KeySetSize(u);
    UnshadowedKeys(oldCache, cache);
    assert KeySet(cache) + KeySet(oldCache) == KeySet(cache) + KeySet(u);
    assert KeySet(cache) * KeySet(u) == {};
  }

  /** Counting the unshadowed old entries one entry at a time. */
  lemma UnshadowedStep<K(!new), V>(prefix: Generation<K, V>, e: (K, Item<V>), cache: Generation<K, V>)
    ensures |Unshadowed(prefix + [e], cache)| == |Unshadowed(prefix, cache)| + if Contains(cache, e.0) then 0 else 1
  {
    RemoveAllAppend(prefix, [e], KeySet(cache));
    assert Keys([e]) == [e.0];
    assert [e][1..] == [];
  }

  /** With an empty recent generation, no old entry is shadowed. */
  lemma UnshadowedByNothing<K(!new), V>(oldCache: Generation<K, V>)
    ensures Unshadowed(oldCache, []) == oldCache
  {
    assert KeySet<K, Item<V>>([]) == {};
    RemoveAbsent(oldCache, {});
  }

  /** The same count, stepping an index over the old generation. */
  lemma UnshadowedCountAt<K(!new), V>(oldCache: Generation<K, V>, i: nat, cache: Generation<K, V>)
    requires i < |oldCache|
    ensures |Unshadowed(oldCache[..i + 1], cache)| == |Unshadowed(oldCache[..i], cache)| + if Contains(cache, oldCache[i].0) then 0 else 1
  {
    assert oldCache[..i + 1] == oldCache[..i] + [oldCache[i]];
    UnshadowedStep(oldCache[..i], oldCache[i], cache);
  }

  /** Every entry of a list is live or expired, never both. */
  lemma {:induction false} LiveExpiredCount<K, V>(m: Generation<K, V>, now: int)
    ensures |LiveEntries(m, now)| + |ExpiredEntries(m, now)| == |m|
  {
    if m != [] {
      LiveExpiredCount(m[1..], now);
    }
  }

  /**
    Of the distinct keys the two generations hold, a traversal yields those
    that are live and sweeps out the others.
   */
  lemma AscendingCount<K(!new), V>(cache: Generation<K, V>, oldCache: Generation<K, V>, now: int)
    requires DistinctKeys(cache) && DistinctKeys(oldCache)
    ensures KeySet(Ascending(cache, oldCache, now)) + KeySet(SweptOut(cache, oldCache, now)) == KeySet(cache) + KeySet(oldCache)
    ensures KeySet(Ascending(cache, oldCache, now)) !! KeySet(SweptOut(cache, oldCache, now))
    ensures |Ascending(cache, oldCache, now)| + |SweptOut(cache, oldCache, now)| == |KeySet(cache) + KeySet(oldCache)|
  {
    var u, v := Unshadowed(oldCache, cache), Visible(cache, oldCache);
    VisibleCount(cache, oldCache);
    LiveExpiredCount(v, now);
    // Every held key is visible exactly once.
    UnshadowedKeys(oldCache, cache);
    KeySetAppend(u, cache);
    assert KeySet(v) == KeySet(cache) + KeySet(oldCache);
    forall k | Contains(u, k)
      ensures !Contains(cache, k)
    {
      assert k in KeySet(u);
    }
    DistinctAppend(u, cache);
    // A visible key is live or swept out, and never both.
    KeySetSplit(v, now);
    RemoveExpiredLeavesLive(v, now);
    forall k | k in KeySet(LiveEntries(v, now))
      ensures k !in KeySet(ExpiredEntries(v, now))
    {
      assert Contains(RemoveAll(v, KeySet(ExpiredEntries(v, now))), k);
    }
  }

  /**
    A list with distinct keys and nothing expired, held entirely by either
    generation, is what a traversal yields; nothing is swept out.
   */
  lemma AllLiveInOneGeneration<K(!new), V>(m: Generation<K, V>, now: int)
    requires DistinctKeys(m)
    requires forall i :: 0 <= i < |m| ==> !IsExpired(m[i].1, now)
    ensures Ascending(m, [], now) == m && SweptOut(m, [], now) == []
    ensures Ascending([], m, now) == m && SweptOut([], m, now) == []
    ensures |KeySet(m)| == |m|
  {
    NoneExpired(m, now);
    var none: Generation<K, V> := [];
    assert Unshadowed(none, m) == none;
    assert Visible(m, none) == m by { assert none + m == m; }
    assert Unshadowed(m, none) == m by {
      assert KeySet(none) == {} by { assert Keys(none) == []; }
      RemoveAbsent(m, {});
    }
    assert Visible(none, m) == m by { assert m + none == m; }
    KeySetSize(m);
  }

  /**
    A suffix of a list with distinct keys and nothing expired, held entirely
    by either generation, is what a traversal yields; nothing is swept out.
   */
  lemma LiveSuffixInOneGeneration<K(!new), V>(m: Generation<K, V>, start: nat, now: int)
    requires DistinctKeys(m) && start <= |m|
    requires forall e {:trigger e in m} :: e in m ==> !IsExpired(e.1, now)
    ensures var kept, none := m[start..], [];
      && Ascending(kept, none, now) == kept && SweptOut(kept, none, now) == []
      && Ascending(none, kept, now) == kept && SweptOut(none, kept, now) == []
      && |KeySet(kept) + KeySet(none)| == |kept| && |KeySet(none) + KeySet(kept)| == |kept|
  {
    var kept, none: Generation<K, V> := m[start..], [];
    DistinctSuffix(m, start);
    forall i | 0 <= i < |kept|
      ensures !IsExpired(kept[i].1, now)
    {
      assert kept[i] == m[start + i] && m[start + i] in m;
    }
    AllLiveInOneGeneration(kept, now);
    assert KeySet(none) == {} by { assert Keys(none) == []; }
    assert KeySet(kept) + KeySet(none) == KeySet(none) + KeySet(kept) == KeySet(kept);
  }
}
