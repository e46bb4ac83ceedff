/** A map that keeps its keys in the order of a comparator. */
module SortedMaps {
  import opened Common

  ghost predicate Sorted<K(!new)>(keys: seq<K>, cmp: (K, K) -> int) {
    forall i, j :: 0 <= i < j < |keys| ==> cmp(keys[i], keys[j]) < 0
  }

  /** keys lists the domain of vals, each key once, in order. */
  ghost predicate Lists<K(!new), V>(keys: seq<K>, vals: map<K, V>, cmp: (K, K) -> int) {
    Sorted(keys, cmp) && forall k :: k in keys <==> k in vals
  }

  lemma TailHolds<K(!new)>(keys: seq<K>, cmp: (K, K) -> int, k: K)
    requires (forall a, b :: Opposes(cmp, a, b)) && Sorted(keys, cmp) && keys != []
    ensures k in keys[1..] <==> k in keys && k != keys[0]
  {
    assert Opposes(cmp, keys[0], k);
    if k in keys[1..] {
      var n :| 0 <= n < |keys| - 1 && keys[1..][n] == k;
      assert keys[n + 1] == k && cmp(keys[0], keys[n + 1]) < 0;
    }
    if k in keys && k != keys[0] {
      var n :| 0 <= n < |keys| && keys[n] == k;
      assert keys[1..][n - 1] == k;
    }
  }

  lemma HeadFirst<K(!new)>(keys: seq<K>, cmp: (K, K) -> int, k: K)
    requires Sorted(keys, cmp) && k in keys
    ensures k == keys[0] || cmp(keys[0], k) < 0
  {
  }

  /** What Range visits depends on the entries alone, not on how the map came to have them. */
  lemma {:induction false} ListingIsUnique<K(!new)>(a: seq<K>, b: seq<K>, cmp: (K, K) -> int)
    requires (forall a, b :: Opposes(cmp, a, b)) && Sorted(a, cmp) && Sorted(b, cmp)
    requires forall k :: k in a <==> k in b
    ensures a == b
  {
    assert a != [] ==> a[0] in a;
    assert b != [] ==> b[0] in b;
    if a != [] && b != [] {
      HeadFirst(a, cmp, b[0]);
      HeadFirst(b, cmp, a[0]);
      assert Opposes(cmp, a[0], b[0]);
      forall k
        ensures k in a[1..] <==> k in b[1..]
      {
        TailHolds(a, cmp, k);
        TailHolds(b, cmp, k);
      }
      ListingIsUnique(a[1..], b[1..], cmp);
      assert a == [a[0]] + a[1..] && b == [b[0]] + b[1..];
    }
  }

  lemma InsertSorted<K(!new)>(keys: seq<K>, cmp: (K, K) -> int, i: nat, key: K)
    requires Sorted(keys, cmp) && i <= |keys|
    requires forall k :: 0 <= k < i ==> cmp(keys[k], key) < 0
    requires forall k :: i <= k < |keys| ==> cmp(key, keys[k]) < 0
    ensures Sorted(Insert(keys, i, key), cmp)
  {
  }

  lemma InsertMembers<K>(keys: seq<K>, i: nat, key: K, k: K)
    requires i <= |keys|
    ensures k in Insert(keys, i, key) <==> k == key || k in keys
  {
  }

  lemma DeleteDrops<K(!new)>(keys: seq<K>, cmp: (K, K) -> int, i: nat)
    requires (forall a, b :: Opposes(cmp, a, b)) && Sorted(keys, cmp) && i < |keys|
    ensures keys[i] !in Delete(keys, i)
  {
    var after := Delete(keys, i);
    forall n | 0 <= n < |after|
      ensures after[n] != keys[i]
    {
      assert Opposes(cmp, after[n], keys[i]) && Opposes(cmp, keys[i], after[n]);
    }
  }

  lemma DeleteMembers<K(!new)>(keys: seq<K>, cmp: (K, K) -> int, i: nat, k: K)
    requires (forall a, b :: Opposes(cmp, a, b)) && Sorted(keys, cmp) && i < |keys|
    ensures k in Delete(keys, i) <==> k != keys[i] && k in keys
  {
    DeleteDrops(keys, cmp, i);
    assert keys == keys[..i] + [keys[i]] + keys[i + 1..];
  }

  datatype Write<K, V> = Put(key: K, val: V) | Drop(key: K) | DropAll

  /** The values after a run of Set, Del and Clear. */
  function Written<K, V>(writes: seq<Write<K, V>>): map<K, V> {
    if writes == [] then map[]
    else
      var before := Written(writes[..|writes| - 1]);
      match writes[|writes| - 1]
      case Put(k, v) => before[k := v]
      case Drop(k) => before - {k}
      case DropAll => map[]
  }

  predicate Touches<K(==), V>(w: Write<K, V>, k: K) {
    w.DropAll? || w.key == k
  }

  /** Position i holds the last write that concerns k. */
  ghost predicate LastTouching<K, V>(writes: seq<Write<K, V>>, k: K, i: int) {
    0 <= i < |writes| && Touches(writes[i], k) && forall j :: i < j < |writes| ==> !Touches(writes[j], k)
  }

  /** After any run of writes a key has a value exactly if the last write that concerns it put that value. */
  lemma {:induction false} LastWriteDecides<K, V>(writes: seq<Write<K, V>>, k: K, v: V)
    ensures k in Written(writes) && Written(writes)[k] == v <==>
      exists i :: LastTouching(writes, k, i) && writes[i] == Put(k, v)
  {
    if writes != [] {
      var last := |writes| - 1;
      var before := writes[..last];
      LastWriteDecides(before, k, v);
      if Touches(writes[last], k) {
        assert LastTouching(writes, k, last);
      } else {
        forall i
          ensures LastTouching(before, k, i) <==> LastTouching(writes, k, i)
        {
          assert forall j :: 0 <= j < last ==> writes[j] == before[j];
        }
      }
    }
  }

  class SortedMap<K(==, !new), V> {
    const cmp: (K, K) -> int
    var vals: map<K, V>
    var keys: seq<K>

    ghost predicate Valid()
      reads this
    {
      StrictTotalOrder(cmp) && Lists(keys, vals, cmp)
    }

    constructor (cmp: (K, K) -> int)
      requires StrictTotalOrder(cmp)
      ensures Valid() && this.cmp == cmp && vals == map[]
    {
      this.cmp := cmp;
      vals := map[];
      keys := [];
    }

    /** The position of key among the keys. */
    method Search(key: K) returns (i: nat, has: bool)
      requires Valid()
      ensures i <= |keys| && (has <==> key in vals) && (has ==> i < |keys| && keys[i] == key)
      ensures forall k :: 0 <= k < i ==> cmp(keys[k], key) < 0
      ensures forall k :: i <= k < |keys| ==> cmp(keys[k], key) >= 0
    {
      forall a, b | 0 <= a < b < |keys| && cmp(keys[b], key) < 0
        ensures cmp(keys[a], key) < 0
      {
        assert Chains(cmp, keys[a], keys[b], key);
      }
      i, has := BinarySearchFunc(keys, key, cmp);
      forall k: nat | k < |keys|
        ensures Opposes(cmp, keys[k], key)
      {
      }
      assert key in vals ==> key in keys;
    }

    method Set(key: K, val: V)
      requires Valid()
      modifies this
      ensures Valid() && vals == old(vals)[key := val]
    {
      var i, has := Search(key);
      if has {
        assert keys[i := key] == keys;
        keys := keys[i := key];
      } else {
        forall k: nat | i <= k < |keys|
          ensures cmp(key, keys[k]) < 0
        {
          assert keys[k] in keys && Opposes(cmp, keys[k], key) && Opposes(cmp, key, keys[k]);
        }
        InsertSorted(keys, cmp, i, key);
        forall k {
          InsertMembers(keys, i, key, k);
        }
        keys := Insert(keys, i, key);
      }
      vals := vals[key := val];
    }

    method Get(key: K) returns (val: Option<V>)
      ensures val == if key in vals then Some(vals[key]) else None
    {
      val := if key in vals then Some(vals[key]) else None;
    }

    method Del(key: K)
      requires Valid()
      modifies this
      ensures Valid() && vals == old(vals) - {key}
    {
      if key !in vals {
        return;
      }
      var i, _ := Search(key);
      forall k {
        DeleteMembers(keys, cmp, i, k);
      }
      vals := vals - {key};
      keys := Delete(keys, i);
    }

    method Clear()
      requires Valid()
      modifies this
      ensures Valid() && vals == map[]
    {
      keys := [];
      vals := map[];
    }

    /**
     * Calls cb on the entries in order until it answers false.  visited is the number of calls;
     * the entry that stopped the walk is returned.
     */
    method Range(cb: (K, V) -> bool) returns (stop: Option<(K, V)>, ghost visited: nat)
      requires Valid()
      ensures visited <= |keys|
      ensures forall i :: 0 <= i < visited && (i < visited - 1 || stop.None?) ==> cb(keys[i], vals[keys[i]])
      ensures stop.None? ==> visited == |keys|
      ensures stop.Some? ==> visited > 0 && stop.value == (keys[visited - 1], vals[keys[visited - 1]])
      ensures stop.Some? ==> !cb(stop.value.0, stop.value.1)
    {
      var n := 0;
      while n < |keys|
        invariant n <= |keys|
        invariant forall i :: 0 <= i < n ==> cb(keys[i], vals[keys[i]])
      {
        var k := keys[n];
        n := n + 1;
        if !cb(k, vals[k]) {
          return Some((k, vals[k])), n;
        }
      }
      return None, n;
    }

    /** The first entry, in order, that wanted accepts: a Range that stops there. */
    method First(wanted: (K, V) -> bool) returns (r: Option<(K, V)>)
      requires Valid()
      ensures r.None? ==> forall k :: k in vals ==> !wanted(k, vals[k])
      ensures r.Some? ==> r.value.0 in vals && r.value.1 == vals[r.value.0] && wanted(r.value.0, r.value.1)
      ensures r.Some? ==> forall k :: k in vals && wanted(k, vals[k]) ==> cmp(r.value.0, k) <= 0
    {
      ghost var visited;
      r, visited := Range((k, v) => !wanted(k, v));
      forall k | k in vals && wanted(k, vals[k])
        ensures r.Some? && cmp(r.value.0, k) <= 0
      {
        var n :| 0 <= n < |keys| && keys[n] == k;
        assert r.Some? && n >= visited - 1;
        assert Opposes(cmp, k, k);
      }
    }
  }
}
