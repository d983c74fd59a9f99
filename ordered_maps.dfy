/**
  A JavaScript `Map` as an insertion-ordered association list.

  Iteration order is insertion order; `set` on a key that is already present
  keeps the key's position, and `set` on a new key appends it.
 */
module OrderedMaps {

  /** The keys of `m`, in iteration order. */
  function Keys<K, V>(m: seq<(K, V)>): (r: seq<K>)
    ensures |r| == |m|
    ensures forall i {:trigger r[i]} :: 0 <= i < |m| ==> r[i] == m[i].0
  {
    if m == [] then [] else [m[0].0] + Keys(m[1..])
  }

  /** The keys of `m`, as a set. */
  function KeySet<K(==, !new), V>(m: seq<(K, V)>): set<K>
  {
    set k | k in Keys(m)
  }

  /** `Map.prototype.has`. */
  predicate Contains<K(==, !new), V>(m: seq<(K, V)>, k: K)
  {
    k in Keys(m)
  }

  /** No key occurs twice: every association list built by the operations below has this property. */
  ghost predicate DistinctKeys<K, V>(m: seq<(K, V)>)
  {
    forall i, j :: 0 <= i < j < |m| ==> m[i].0 != m[j].0
  }

  /** The position of `k` in `m`: the first entry whose key is `k`. */
  function IndexOf<K(==, !new), V>(m: seq<(K, V)>, k: K): (i: nat)
    requires Contains(m, k)
    ensures i < |m| && m[i].0 == k
    ensures forall j :: 0 <= j < i ==> m[j].0 != k
  {
    if m[0].0 == k then 0
    else
      assert Keys(m[1..]) == Keys(m)[1..];
      1 + IndexOf(m[1..], k)
  }

  /** `Map.prototype.get` on a key that is present. */
  function Lookup<K(==, !new), V>(m: seq<(K, V)>, k: K): (v: V)
    requires Contains(m, k)
    ensures (k, v) in m
  {
    m[IndexOf(m, k)].1
  }

  /** The first position holding key `k` is the one IndexOf finds. */
  lemma IndexOfUnique<K(!new), V>(m: seq<(K, V)>, k: K, i: nat)
    requires i < |m| && m[i].0 == k
    requires forall j :: 0 <= j < i ==> m[j].0 != k
    ensures Contains(m, k) && IndexOf(m, k) == i
  {
    assert Keys(m)[i] == k;
  }

  /** In a list with distinct keys, the entry at position `i` is the one found for its key. */
  lemma LookupAt<K(!new), V>(m: seq<(K, V)>, i: nat)
    requires DistinctKeys(m) && i < |m|
    ensures Contains(m, m[i].0) && IndexOf(m, m[i].0) == i && Lookup(m, m[i].0) == m[i].1
  {
    IndexOfUnique(m, m[i].0, i);
  }

  /** A key present in `m` is present at the position of one of its entries. */
  lemma ContainsAt<K(!new), V>(m: seq<(K, V)>, i: nat)
    requires i < |m|
    ensures Contains(m, m[i].0)
  {
    assert Keys(m)[i] == m[i].0;
  }

  /** `has` answers true exactly when some entry of the map carries the key. */
  lemma {:induction false} ContainsIff<K(!new), V>(m: seq<(K, V)>, k: K)
    ensures Contains(m, k) <==> exists i :: 0 <= i < |m| && m[i].0 == k
  {
    if Contains(m, k) {
      var i := IndexOf(m, k);
      assert m[i].0 == k;
    } else {
      forall i | 0 <= i < |m|
        ensures m[i].0 != k
      {
        ContainsAt(m, i);
      }
    }
  }

  /**
    `Map.prototype.set`: a present key keeps its position and takes the new
    value; a new key is appended at the end.
   */
  function Insert<K(==, !new), V>(m: seq<(K, V)>, k: K, v: V): (r: seq<(K, V)>)
    ensures Keys(r) == if Contains(m, k) then Keys(m) else Keys(m) + [k]
    ensures Contains(r, k) && Lookup(r, k) == v
    ensures forall k' {:trigger Lookup(r, k')} :: k' != k && Contains(m, k') ==> Lookup(r, k') == Lookup(m, k')
    ensures DistinctKeys(m) ==> DistinctKeys(r)
  {
    InsertFacts(m, k, v);
    if Contains(m, k) then m[IndexOf(m, k) := (k, v)] else m + [(k, v)]
  }

  lemma InsertFacts<K(!new), V>(m: seq<(K, V)>, k: K, v: V)
    ensures var r := if Contains(m, k) then m[IndexOf(m, k) := (k, v)] else m + [(k, v)];
      && Keys(r) == (if Contains(m, k) then Keys(m) else Keys(m) + [k])
      && Contains(r, k) && Lookup(r, k) == v
      && (forall k' :: k' != k && Contains(m, k') ==> Lookup(r, k') == Lookup(m, k'))
      && (DistinctKeys(m) ==> DistinctKeys(r))
  {
    if Contains(m, k) {
      var i := IndexOf(m, k);
      var r := m[i := (k, v)];
      assert Keys(r) == Keys(m);
      IndexOfUnique(r, k, i);
      forall k' | k' != k && Contains(m, k')
        ensures Lookup(r, k') == Lookup(m, k')
      {
        var j := IndexOf(m, k');
        IndexOfUnique(r, k', j);
      }
    } else {
      var r := m + [(k, v)];
      assert Keys(r) == Keys(m) + [k];
      forall j | 0 <= j < |m|
        ensures r[j].0 != k
      {
        ContainsAt(m, j);
      }
      IndexOfUnique(r, k, |m|);
      forall k' | k' != k && Contains(m, k')
        ensures Lookup(r, k') == Lookup(m, k')
      {
        var j := IndexOf(m, k');
        IndexOfUnique(r, k', j);
      }
      if DistinctKeys(m) {
        forall i, j | 0 <= i < j < |r|
          ensures r[i].0 != r[j].0
        {
          if j == |m| {
            ContainsAt(m, i);
          }
        }
      }
    }
  }

  /** The entries of `m` whose key is not in `ks`, in their order. */
  function RemoveAll<K(==, !new), V>(m: seq<(K, V)>, ks: set<K>): (r: seq<(K, V)>)
    ensures |r| <= |m|
    ensures forall e {:trigger e in r} :: e in r ==> e in m && e.0 !in ks
    ensures forall k {:trigger Contains(r, k)} :: Contains(r, k) <==> Contains(m, k) && k !in ks
    ensures DistinctKeys(m) ==> DistinctKeys(r)
  {
    if m == [] then []
    else
      var rest := RemoveAll(m[1..], ks);
      assert Keys(m) == [m[0].0] + Keys(m[1..]);
      var r := if m[0].0 in ks then rest else [m[0]] + rest;
      assert m[0].0 !in ks ==> Keys(r) == [m[0].0] + Keys(rest);
      assert forall k :: Contains(r, k) <==> Contains(m, k) && k !in ks by {
        forall k
          ensures Contains(r, k) <==> Contains(m, k) && k !in ks
        {
          assert Contains(rest, k) <==> Contains(m[1..], k) && k !in ks;
        }
      }
      assert DistinctKeys(m) ==> DistinctKeys(r) by {
        if DistinctKeys(m) && m[0].0 !in ks {
          forall j | 0 < j < |r|
            ensures r[0].0 != r[j].0
          {
            assert r[j] == rest[j - 1];
            assert rest[j - 1] in rest;
            var n :| 0 <= n < |m[1..]| && m[1..][n] == rest[j - 1];
            assert m[1 + n] == r[j];
          }
        }
      }
      r
  }

  /** `Map.prototype.delete`. */
  function Remove<K(==, !new), V>(m: seq<(K, V)>, k: K): (r: seq<(K, V)>)
    ensures forall k' {:trigger Contains(r, k')} :: Contains(r, k') <==> Contains(m, k') && k' != k
    ensures !Contains(m, k) ==> r == m
    ensures DistinctKeys(m) ==> DistinctKeys(r) && |r| == if Contains(m, k) then |m| - 1 else |m|
  {
    RemoveCount(m, k);
    RemoveAbsentKey(m, k);
    RemoveAll(m, {k})
  }

  lemma {:induction false} RemoveCount<K(!new), V>(m: seq<(K, V)>, k: K)
    ensures DistinctKeys(m) ==> |RemoveAll(m, {k})| == if Contains(m, k) then |m| - 1 else |m|
  {
    if m != [] && DistinctKeys(m) {
      assert Keys(m) == [m[0].0] + Keys(m[1..]);
      RemoveCount(m[1..], k);
      if m[0].0 == k {
        assert !Contains(m[1..], k);
        RemoveAbsent(m[1..], {k});
      }
    }
  }

  lemma RemoveAbsentKey<K(!new), V>(m: seq<(K, V)>, k: K)
    ensures !Contains(m, k) ==> RemoveAll(m, {k}) == m
  {
    if !Contains(m, k) {
      RemoveAbsent(m, {k});
    }
  }

  /** Removing keys that are not there changes nothing. */
  lemma {:induction false} RemoveAbsent<K(!new), V>(m: seq<(K, V)>, ks: set<K>)
    requires forall k :: k in ks ==> !Contains(m, k)
    ensures RemoveAll(m, ks) == m
  {
    if m != [] {
      assert Keys(m) == [m[0].0] + Keys(m[1..]);
      RemoveAbsent(m[1..], ks);
    }
  }

  /** Removing keys distributes over concatenation. */
  lemma {:induction false} RemoveAllAppend<K(!new), V>(a: seq<(K, V)>, b: seq<(K, V)>, ks: set<K>)
    ensures RemoveAll(a + b, ks) == RemoveAll(a, ks) + RemoveAll(b, ks)
  {
    if a != [] {
      assert (a + b)[1..] == a[1..] + b;
      RemoveAllAppend(a[1..], b, ks);
    } else {
      assert a + b == b;
    }
  }

  /** Removing two sets of keys one after the other removes their union. */
  lemma {:induction false} RemoveAllTwice<K(!new), V>(m: seq<(K, V)>, xs: set<K>, ys: set<K>)
    ensures RemoveAll(RemoveAll(m, xs), ys) == RemoveAll(m, xs + ys)
  {
    if m != [] {
      RemoveAllTwice(m[1..], xs, ys);
    }
  }

  /** Only the keys actually present matter to RemoveAll. */
  lemma {:induction false} RemoveAllPresent<K(!new), V>(m: seq<(K, V)>, xs: set<K>, ys: set<K>)
    requires forall k :: Contains(m, k) ==> (k in xs <==> k in ys)
    ensures RemoveAll(m, xs) == RemoveAll(m, ys)
  {
    if m != [] {
      assert Keys(m) == [m[0].0] + Keys(m[1..]);
      RemoveAllPresent(m[1..], xs, ys);
    }
  }

  /** The values of `m`, in iteration order. */
  function Values<K, V>(m: seq<(K, V)>): (r: seq<V>)
    ensures |r| == |m|
    ensures forall i {:trigger r[i]} :: 0 <= i < |m| ==> r[i] == m[i].1
  {
    if m == [] then [] else [m[0].1] + Values(m[1..])
  }

  /** A list with distinct keys has as many keys as entries. */
  lemma {:induction false} KeySetSize<K(!new), V>(m: seq<(K, V)>)
    requires DistinctKeys(m)
    ensures |KeySet(m)| == |m|
  {
    if m != [] {
      assert Keys(m) == [m[0].0] + Keys(m[1..]);
      assert KeySet(m) == {m[0].0} + KeySet(m[1..]);
      assert m[0].0 !in KeySet(m[1..]);
      KeySetSize(m[1..]);
    } else {
      assert KeySet(m) == {};
    }
  }

  /** The keys of a list with an entry in front: that entry's key and the rest's keys. */
  lemma KeySetCons<K(!new), V>(e: (K, V), m: seq<(K, V)>)
    ensures KeySet([e] + m) == {e.0} + KeySet(m)
  {
    assert Keys([e] + m) == [e.0] + Keys(m);
  }

  lemma KeySetAppend<K(!new), V>(a: seq<(K, V)>, b: seq<(K, V)>)
    ensures KeySet(a + b) == KeySet(a) + KeySet(b)
  {
    assert Keys(a + b) == Keys(a) + Keys(b);
  }

  /** In a list with distinct keys, the key at position `i` occurs neither before nor after it. */
  lemma DistinctAround<K(!new), V>(m: seq<(K, V)>, i: nat)
    requires DistinctKeys(m) && i < |m|
    ensures !Contains(m[..i], m[i].0) && !Contains(m[i + 1..], m[i].0)
  {
    var before, after := m[..i], m[i + 1..];
    forall j | 0 <= j < |before|
      ensures Keys(before)[j] != m[i].0
    {
      assert before[j] == m[j];
    }
    forall j | 0 <= j < |after|
      ensures Keys(after)[j] != m[i].0
    {
      assert after[j] == m[i + 1 + j];
    }
  }

  /** A suffix of a list with distinct keys has distinct keys. */
  lemma DistinctSuffix<K, V>(m: seq<(K, V)>, k: nat)
    requires DistinctKeys(m) && k <= |m|
    ensures DistinctKeys(m[k..])
  {
    forall i, j | 0 <= i < j < |m| - k
      ensures m[k..][i].0 != m[k..][j].0
    {
      assert m[k..][i] == m[k + i] && m[k..][j] == m[k + j];
    }
  }

  /** Two lists with distinct keys and no key in common make one with distinct keys. */
  lemma DistinctAppend<K(!new), V>(a: seq<(K, V)>, b: seq<(K, V)>)
    requires DistinctKeys(a) && DistinctKeys(b)
    requires forall k :: Contains(a, k) ==> !Contains(b, k)
    ensures DistinctKeys(a + b)
  {
    forall i, j | 0 <= i < j < |a + b|
      ensures (a + b)[i].0 != (a + b)[j].0
    {
      if i < |a| && |a| <= j {
        ContainsAt(a, i);
        ContainsAt(b, j - |a|);
      }
    }
  }
}
