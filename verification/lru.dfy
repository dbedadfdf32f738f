/** The bounded least-recently-used cache (src/LRUCache.java). The doubly linked list
    between the head and end sentinels is modelled by the sequence of its keys, most
    recently used first; the hash map by a map from each key to its node's value. */
module Lru {
  import opened Common

  /** `capacity`, the list between the sentinels (`order`), the hash map composed with
      `Node.val` (`index`) and the counter `c` (`count`). */
  datatype Cache<K, V> = Cache(capacity: int, order: seq<K>, index: map<K, V>, count: int)

  /** `popEnd` on an empty list reaches `removeNode(head)`, whose `head.previous` is null. */
  datatype Fault = NullDereference

  predicate Distinct<K(==, !new)>(s: seq<K>) {
    forall i, j :: 0 <= i < j < |s| ==> s[i] != s[j]
  }

  /** The list, the hash map and the counter describe the same entries: every key of the
      map is on the list exactly once, and the counter is the list's length. */
  ghost predicate Consistent<K(!new), V>(c: Cache<K, V>) {
    && Distinct(c.order)
    && (forall k :: k in c.order <==> k in c.index)
    && c.count == |c.order|
  }

  /** A consistent cache that has room for at least one entry and is not over capacity. */
  ghost predicate Valid<K(!new), V>(c: Cache<K, V>) {
    Consistent(c) && 1 <= c.capacity && c.count <= c.capacity
  }

  /** `new LRUCache(capacity)`: the head sentinel points straight at the end sentinel. */
  function New<K(==, !new), V>(capacity: int): (c: Cache<K, V>)
    ensures c.capacity == capacity && c.order == [] && c.index == map[] && c.count == 0
    ensures Consistent(c)
    ensures 1 <= capacity ==> Valid(c)
  {
    Cache(capacity, [], map[], 0)
  }

  /** `removeNode` on the abstract list: the key leaves the list, the rest keep their order. */
  function RemoveKey<K(==, !new)>(s: seq<K>, k: K): (r: seq<K>)
    ensures forall x :: x in r <==> x in s && x != k
    ensures |r| <= |s|
    ensures k !in s ==> r == s
    decreases |s|
  {
    if s == [] then []
    else if s[0] == k then RemoveKey(s[1..], k)
    else [s[0]] + RemoveKey(s[1..], k)
  }

  /** `addNode`: the key goes right after the head sentinel. */
  function AddNode<K(==, !new)>(s: seq<K>, k: K): seq<K> {
    [k] + s
  }

  /** `lastUsed`: unlink the node, then add it back after the head sentinel. */
  function LastUsed<K(==, !new)>(s: seq<K>, k: K): seq<K> {
    AddNode(RemoveKey(s, k), k)
  }

  /** `get`: the stored value, or null; a hit also promotes the key to the front. */
  function Get<K(==, !new), V>(c: Cache<K, V>, k: K): (r: (Cache<K, V>, Option<V>))
    ensures r.1 == if k in c.index then Some(c.index[k]) else None
    ensures r.0.index == c.index && r.0.count == c.count && r.0.capacity == c.capacity
    ensures k !in c.index ==> r.0.order == c.order
    ensures k in c.index ==> |r.0.order| > 0 && r.0.order[0] == k && RemoveKey(r.0.order, k) == RemoveKey(c.order, k)
  {
    if k !in c.index then (c, None)
    else
      RemoveKeyTwice(c.order, k);
      (c.(order := LastUsed(c.order, k)), Some(c.index[k]))
  }

  /** `put`. A present key gets the new value and moves to the front. A new key is counted;
      if the count then exceeds the capacity the node before the end sentinel is unlinked and
      its key leaves the map, and either way the new node goes to the front. */
  function Put<K(==, !new), V>(c: Cache<K, V>, k: K, v: V): (r: Result<Cache<K, V>, Fault>)
    ensures r.Err? <==> k !in c.index && c.count + 1 > c.capacity && c.order == []
    ensures r.Ok? ==> r.value.capacity == c.capacity && |r.value.order| > 0 && r.value.order[0] == k
    ensures r.Ok? ==> k in r.value.index && r.value.index[k] == v
  {
    if k !in c.index then
      var count := c.count + 1;
      if count > c.capacity then
        if c.order == [] then Err(NullDereference)
        else
          var lru := c.order[|c.order| - 1];
          var rest := c.order[..|c.order| - 1];
          Ok(Cache(c.capacity, AddNode(rest, k), (c.index - {lru})[k := v], count - 1))
      else
        Ok(Cache(c.capacity, AddNode(c.order, k), c.index[k := v], count))
    else
      Ok(c.(index := c.index[k := v], order := LastUsed(c.order, k)))
  }

  /** What `put` does in each of its three cases: a present key keeps the key set and the
      count, and the other keys their order and values; a new key with room to spare goes
      in front of the others and is counted; a new key at capacity replaces the last key on
      the list, which leaves the map while every other entry stays. */
  lemma PutEffect<K(!new), V>(c: Cache<K, V>, k: K, v: V)
    ensures Put(c, k, v).Ok? && k in c.index ==>
      && Put(c, k, v).value.index.Keys == c.index.Keys
      && Put(c, k, v).value.count == c.count
      && RemoveKey(Put(c, k, v).value.order, k) == RemoveKey(c.order, k)
      && (forall x :: x in c.index && x != k ==> Put(c, k, v).value.index[x] == c.index[x])
    ensures Put(c, k, v).Ok? && k !in c.index && c.count < c.capacity ==>
      && Put(c, k, v).value.order == [k] + c.order
      && Put(c, k, v).value.index == c.index[k := v]
      && Put(c, k, v).value.count == c.count + 1
    ensures Put(c, k, v).Ok? && k !in c.index && c.count >= c.capacity ==>
      var lru := c.order[|c.order| - 1];
      && Put(c, k, v).value.order == [k] + c.order[..|c.order| - 1]
      && Put(c, k, v).value.index.Keys == c.index.Keys - {lru} + {k}
      && (forall x :: x in c.index && x != lru ==> Put(c, k, v).value.index[x] == c.index[x])
      && Put(c, k, v).value.count == c.count
  {
    if k in c.index {
      RemoveKeyTwice(c.order, k);
    }
  }

  lemma {:induction false} RemoveKeyTwice<K(!new)>(s: seq<K>, k: K)
    ensures RemoveKey(RemoveKey(s, k), k) == RemoveKey(s, k)
    ensures RemoveKey(LastUsed(s, k), k) == RemoveKey(s, k)
  {
    assert LastUsed(s, k)[1..] == RemoveKey(s, k);
  }

  /** On a list without repeats, `removeNode` unlinks exactly the key's node: what comes
      before it and what comes after it stay, in their order. */
  lemma {:induction false} RemoveKeyUnlinks<K(!new)>(s: seq<K>, k: K, i: nat)
    requires Distinct(s) && i < |s| && s[i] == k
    ensures RemoveKey(s, k) == s[..i] + s[i + 1..]
    decreases i
  {
    if i == 0 {
      assert k !in s[1..] by {
        forall j | 0 <= j < |s[1..]| ensures s[1..][j] != k { assert s[1..][j] == s[j + 1]; }
      }
    } else {
      assert s[0] != k;
      assert Distinct(s[1..]) by {
        forall a, b | 0 <= a < b < |s[1..]| ensures s[1..][a] != s[1..][b] {
          assert s[1..][a] == s[a + 1] && s[1..][b] == s[b + 1];
        }
      }
      RemoveKeyUnlinks(s[1..], k, i - 1);
      assert s[..i] == [s[0]] + s[1..][..i - 1];
      assert s[i + 1..] == s[1..][i..];
    }
  }

  lemma {:induction false} RemoveKeyKeepsDistinct<K(!new)>(s: seq<K>, k: K)
    requires Distinct(s)
    ensures Distinct(RemoveKey(s, k))
    ensures k in s ==> |RemoveKey(s, k)| == |s| - 1
    decreases |s|
  {
    if s != [] {
      assert Distinct(s[1..]) by {
        forall i, j | 0 <= i < j < |s[1..]| ensures s[1..][i] != s[1..][j] {
          assert s[1..][i] == s[i + 1] && s[1..][j] == s[j + 1];
        }
      }
      RemoveKeyKeepsDistinct(s[1..], k);
      if s[0] == k {
        assert k !in s[1..] by {
          forall i | 0 <= i < |s[1..]| ensures s[1..][i] != k { assert s[1..][i] == s[i + 1]; }
        }
      } else {
        assert s[0] !in s[1..] by {
          forall i | 0 <= i < |s[1..]| ensures s[1..][i] != s[0] { assert s[1..][i] == s[i + 1]; }
        }
        DistinctCons(s[0], RemoveKey(s[1..], k));
      }
    }
  }

  lemma DistinctCons<K(!new)>(x: K, s: seq<K>)
    requires Distinct(s) && x !in s
    ensures Distinct([x] + s)
  {
    var t := [x] + s;
    forall i, j | 0 <= i < j < |t| ensures t[i] != t[j] {
      assert t[j] == s[j - 1];
      if i > 0 {
        assert t[i] == s[i - 1];
      }
    }
  }

  lemma DistinctPrefix<K(!new)>(s: seq<K>, n: nat)
    requires Distinct(s) && n <= |s|
    ensures Distinct(s[..n])
  {
    forall i, j | 0 <= i < j < n ensures s[..n][i] != s[..n][j] {
      assert s[..n][i] == s[i] && s[..n][j] == s[j];
    }
  }

  /** `get` keeps the invariants. */
  lemma GetKeepsValid<K(!new), V>(c: Cache<K, V>, k: K)
    requires Valid(c)
    ensures Valid(Get(c, k).0)
    ensures k in c.index ==> Get(c, k).0.order[1..] == RemoveKey(c.order, k)
  {
    if k in c.index {
      RemoveKeyKeepsDistinct(c.order, k);
      DistinctCons(k, RemoveKey(c.order, k));
    }
  }

  /** With a positive capacity `put` never faults and keeps the invariants, so the count never
      exceeds the capacity. */
  lemma PutKeepsValid<K(!new), V>(c: Cache<K, V>, k: K, v: V)
    requires Valid(c)
    ensures Put(c, k, v).Ok?
    ensures Valid(Put(c, k, v).value)
  {
    var r := Put(c, k, v).value;
    if k in c.index {
      RemoveKeyKeepsDistinct(c.order, k);
      DistinctCons(k, RemoveKey(c.order, k));
    } else if c.count < c.capacity {
      DistinctCons(k, c.order);
    } else {
      var n := |c.order| - 1;
      var lru := c.order[n];
      DistinctPrefix(c.order, n);
      DistinctCons(k, c.order[..n]);
      assert c.order == c.order[..n] + [lru];
      assert lru !in c.order[..n] by {
        forall i | 0 <= i < n ensures c.order[..n][i] != lru { assert c.order[..n][i] == c.order[i]; }
      }
      forall x ensures x in r.order <==> x in r.index {
        assert x in c.order <==> x in c.order[..n] || x == lru;
      }
    }
  }

  /** A get on an absent key changes nothing; a get on a present key moves it to the front
      and leaves the other keys in their relative order. */
  lemma GetRecency<K(!new), V>(c: Cache<K, V>, k: K)
    ensures k !in c.index ==> Get(c, k) == (c, None)
    ensures k in c.index ==> Get(c, k).0.order == [k] + RemoveKey(c.order, k)
  {
  }

  /** Two consecutive gets of a key leave the state one get leaves. */
  lemma GetIdempotent<K(!new), V>(c: Cache<K, V>, k: K)
    ensures Get(Get(c, k).0, k) == Get(c, k)
  {
    if k in c.index {
      var c1 := Get(c, k).0;
      assert c1.order[0] == k;
      RemoveKeyTwice(c.order, k);
      assert LastUsed(c1.order, k) == c1.order;
    }
  }

  /** A get right after a put of the same key returns the value just put. */
  lemma PutThenGet<K(!new), V>(c: Cache<K, V>, k: K, v: V)
    requires Valid(c)
    ensures Put(c, k, v).Ok?
    ensures Get(Put(c, k, v).value, k).1 == Some(v)
  {
    PutKeepsValid(c, k, v);
  }

  /** At capacity, putting a new key evicts exactly the key next to the end sentinel, the
      least recently used one: it leaves both the list and the map, every other entry stays,
      and the count stays at the capacity. */
  lemma EvictsLeastRecentlyUsed<K(!new), V>(c: Cache<K, V>, k: K, v: V)
    requires Valid(c) && k !in c.index && c.count == c.capacity
    ensures Put(c, k, v).Ok?
    ensures var r := Put(c, k, v).value; var lru := c.order[|c.order| - 1];
      && lru !in r.index && lru !in r.order
      && (forall x :: x in c.index && x != lru ==> x in r.index && r.index[x] == c.index[x])
      && r.count == r.capacity
  {
    PutKeepsValid(c, k, v);
  }
}
