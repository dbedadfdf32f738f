/** An independent description of what the LRU cache holds: replaying the history of
    touched keys, the cache holds the `capacity` most recently touched distinct keys, most
    recent first, each with the value last written to it. The linked-list bookkeeping of
    src/LRUCache.java is proved to agree with it after every `get` and `put`. */
module LruReference {
  import opened Common
  import opened Lru

  /** The distinct keys of a touch history, most recently touched first: the last key
      touched, then the recency order of the earlier history with that key erased. */
  function Recency<K(==, !new)>(h: seq<K>): (r: seq<K>)
    ensures |r| <= |h|
    decreases |h|
  {
    if h == [] then []
    else
      var k := h[|h| - 1];
      [k] + Recency(RemoveKey(h[..|h| - 1], k))
  }

  /** The first `n` elements of `s`, or all of it when it is shorter. */
  function Take<K>(n: nat, s: seq<K>): (r: seq<K>)
    ensures |r| == if |s| <= n then |s| else n
  {
    if |s| <= n then s else s[..n]
  }

  /** The keys a cache of the given capacity holds after the history `h`. */
  function Resident<K(==, !new)>(capacity: nat, h: seq<K>): seq<K> {
    Take(capacity, Recency(h))
  }

  lemma {:induction false} RemoveKeyAppend<K(!new)>(a: seq<K>, b: seq<K>, x: K)
    ensures RemoveKey(a + b, x) == RemoveKey(a, x) + RemoveKey(b, x)
    decreases |a|
  {
    if a != [] {
      assert (a + b)[1..] == a[1..] + b;
      RemoveKeyAppend(a[1..], b, x);
    } else {
      assert a + b == b;
    }
  }

  lemma {:induction false} RemoveKeyCommutes<K(!new)>(s: seq<K>, x: K, y: K)
    ensures RemoveKey(RemoveKey(s, x), y) == RemoveKey(RemoveKey(s, y), x)
    decreases |s|
  {
    if s != [] {
      RemoveKeyCommutes(s[1..], x, y);
    }
  }

  lemma {:induction false} RemoveKeySnoc<K(!new)>(s: seq<K>, y: K, x: K)
    ensures RemoveKey(s + [y], x) == if y == x then RemoveKey(s, x) else RemoveKey(s, x) + [y]
  {
    RemoveKeyAppend(s, [y], x);
    assert RemoveKey([y], x) == if y == x then [] else [y] by {
      assert [y][1..] == [];
    }
  }

  /** Erasing a key from the history erases it from the recency order. */
  lemma {:induction false} RecencyRemove<K(!new)>(h: seq<K>, x: K)
    ensures Recency(RemoveKey(h, x)) == RemoveKey(Recency(h), x)
    decreases |h|
  {
    if h != [] {
      var front, y := h[..|h| - 1], h[|h| - 1];
      assert h == front + [y];
      RemoveKeySnoc(front, y, x);
      if y == x {
        RecencyRemove(RemoveKey(front, x), x);
        RemoveKeyTwice(front, x);
        assert RemoveKey([x] + Recency(RemoveKey(front, x)), x)
            == RemoveKey(Recency(RemoveKey(front, x)), x);
      } else {
        var h' := RemoveKey(front, x) + [y];
        assert h'[..|h'| - 1] == RemoveKey(front, x);
        RecencyRemove(RemoveKey(front, y), x);
        RemoveKeyCommutes(front, x, y);
        assert RemoveKey([y] + Recency(RemoveKey(front, y)), x)
            == [y] + RemoveKey(Recency(RemoveKey(front, y)), x);
      }
    }
  }

  /** Touching a key moves it to the front of the recency order, the move-to-front rule the
      linked list implements. */
  lemma RecencySnoc<K(!new)>(h: seq<K>, k: K)
    ensures Recency(h + [k]) == [k] + RemoveKey(Recency(h), k)
  {
    assert (h + [k])[..|h|] == h;
    RecencyRemove(h, k);
  }

  /** The recency order lists every touched key exactly once. */
  lemma {:induction false} RecencyDistinct<K(!new)>(h: seq<K>)
    ensures Distinct(Recency(h))
    ensures forall x :: x in Recency(h) <==> x in h
    decreases |h|
  {
    if h != [] {
      var front, k := h[..|h| - 1], h[|h| - 1];
      RecencyDistinct(RemoveKey(front, k));
      DistinctCons(k, Recency(RemoveKey(front, k)));
      forall x ensures x in Recency(h) <==> x in h {
        assert h == front + [k];
        assert x in h <==> x in front || x == k;
      }
    }
  }

  /** With no key touched twice, the recency order is the history reversed. */
  lemma {:induction false} RecencyOfDistinct<K(!new)>(h: seq<K>)
    requires Distinct(h)
    ensures |Recency(h)| == |h|
    ensures forall i :: 0 <= i < |h| ==> Recency(h)[i] == h[|h| - 1 - i]
    decreases |h|
  {
    if h != [] {
      var front, k := h[..|h| - 1], h[|h| - 1];
      DistinctPrefix(h, |h| - 1);
      assert k !in front by {
        forall i | 0 <= i < |front| ensures front[i] != k { assert front[i] == h[i]; }
      }
      RecencyOfDistinct(front);
      assert RemoveKey(front, k) == front;
    }
  }

  /** Unlinking a resident key from the list is the same as erasing it from the full
      recency order and keeping one fewer. */
  lemma TakeRemovePresent<K(!new)>(s: seq<K>, n: nat, k: K)
    requires Distinct(s) && 1 <= n && k in Take(n, s)
    ensures RemoveKey(Take(n, s), k) == Take(n - 1, RemoveKey(s, k))
  {
    RemoveKeyKeepsDistinct(s, k);
    if |s| > n {
      assert s == s[..n] + s[n..];
      RemoveKeyAppend(s[..n], s[n..], k);
      DistinctPrefix(s, n);
      RemoveKeyKeepsDistinct(s[..n], k);
      assert k !in s[n..] by {
        var i :| 0 <= i < n && s[..n][i] == k;
        forall j | 0 <= j < |s[n..]| ensures s[n..][j] != k {
          assert s[n..][j] == s[n + j] && s[i] == k;
        }
      }
      assert RemoveKey(s, k)[..n - 1] == RemoveKey(s[..n], k);
    } else {
      assert k in s;
    }
  }

  /** Erasing a key absent from the first `n` positions leaves those positions alone. */
  lemma TakeRemoveAbsent<K(!new)>(s: seq<K>, n: nat, k: K)
    requires n <= |s| && k !in s[..n]
    ensures Take(n, RemoveKey(s, k)) == s[..n]
  {
    assert s == s[..n] + s[n..];
    RemoveKeyAppend(s[..n], s[n..], k);
    assert RemoveKey(s[..n], k) == s[..n];
  }

  /** The replayed history: the touched keys, and the value last written to each key. */
  datatype History<K, V> = History(touched: seq<K>, written: map<K, V>)

  /** One access: a read is `get`, a write is `put`. */
  datatype Access<K, V> = Read(key: K) | Write(key: K, val: V)

  /** A read touches its key only when that key is resident; a write always touches it and
      records the value. */
  function Replay<K(==, !new), V>(capacity: nat, r: History<K, V>, a: Access<K, V>): History<K, V> {
    match a
    case Read(k) => if k in Resident(capacity, r.touched) then r.(touched := r.touched + [k]) else r
    case Write(k, v) => History(r.touched + [k], r.written[k := v])
  }

  /** The answer a read gets according to the history. */
  function Lookup<K(==, !new), V>(capacity: nat, r: History<K, V>, k: K): Option<V> {
    if k in Resident(capacity, r.touched) && k in r.written then Some(r.written[k]) else None
  }

  /** The cache state `c` is the one the history `r` describes. */
  ghost predicate Describes<K(!new), V>(c: Cache<K, V>, r: History<K, V>) {
    && Valid(c)
    && c.order == Resident(c.capacity, r.touched)
    && (forall k :: k in c.index ==> k in r.written && c.index[k] == r.written[k])
  }

  function Step<K(==, !new), V>(c: Cache<K, V>, a: Access<K, V>): Result<Cache<K, V>, Fault> {
    match a
    case Read(k) => Ok(Get(c, k).0)
    case Write(k, v) => Put(c, k, v)
  }

  /** One `get` or `put` keeps the cache in step with the history, and a `get` answers what
      the history says. */
  lemma StepDescribed<K(!new), V>(c: Cache<K, V>, r: History<K, V>, a: Access<K, V>)
    requires Describes(c, r)
    ensures Step(c, a).Ok? && Step(c, a).value.capacity == c.capacity
    ensures Describes(Step(c, a).value, Replay(c.capacity, r, a))
    ensures a.Read? ==> Get(c, a.key).1 == Lookup(c.capacity, r, a.key)
  {
    match a
    case Read(k) =>
      ReadDescribed(c, r, k);
    case Write(k, v) =>
      PutKeepsValid(c, k, v);
      if k in c.index {
        PromoteMatchesRecency(c, r, k);
      } else if c.count < c.capacity {
        InsertMatchesRecency(c, r, k);
      } else {
        EvictMatchesRecency(c, r, k);
      }
  }

  lemma ReadDescribed<K(!new), V>(c: Cache<K, V>, r: History<K, V>, k: K)
    requires Describes(c, r)
    ensures Describes(Get(c, k).0, Replay(c.capacity, r, Read(k)))
    ensures Get(c, k).1 == Lookup(c.capacity, r, k)
  {
    GetKeepsValid(c, k);
    if k in c.index {
      PromoteMatchesRecency(c, r, k);
    }
  }

  /** Moving a resident key to the front is what touching it does to the resident keys. */
  lemma PromoteMatchesRecency<K(!new), V>(c: Cache<K, V>, r: History<K, V>, k: K)
    requires Describes(c, r) && k in c.index
    ensures LastUsed(c.order, k) == Resident(c.capacity, r.touched + [k])
  {
    var R := Recency(r.touched);
    RecencyDistinct(r.touched);
    RecencySnoc(r.touched, k);
    TakeRemovePresent(R, c.capacity, k);
  }

  /** With room left, a new key simply goes in front of the resident keys. */
  lemma InsertMatchesRecency<K(!new), V>(c: Cache<K, V>, r: History<K, V>, k: K)
    requires Describes(c, r) && k !in c.index && c.count < c.capacity
    ensures [k] + c.order == Resident(c.capacity, r.touched + [k])
  {
    var R := Recency(r.touched);
    RecencyDistinct(r.touched);
    RecencySnoc(r.touched, k);
    assert R == c.order;
    assert RemoveKey(R, k) == R;
  }

  /** At capacity, the key after the first `capacity - 1` resident keys drops out when a new
      key is touched, which is the key the list evicts. */
  lemma EvictMatchesRecency<K(!new), V>(c: Cache<K, V>, r: History<K, V>, k: K)
    requires Describes(c, r) && k !in c.index && c.count >= c.capacity
    ensures [k] + c.order[..|c.order| - 1] == Resident(c.capacity, r.touched + [k])
  {
    var cap := c.capacity;
    var R := Recency(r.touched);
    RecencySnoc(r.touched, k);
    assert |c.order| == cap;
    assert |R| >= cap;
    assert c.order == R[..cap];
    assert k !in c.order;
    EvictAgrees(R, cap, k);
  }

  lemma EvictAgrees<K(!new)>(R: seq<K>, cap: nat, k: K)
    requires 1 <= cap <= |R| && k !in R[..cap]
    ensures [k] + R[..cap][..cap - 1] == Take(cap, [k] + RemoveKey(R, k))
  {
    assert R[..cap][..cap - 1] == R[..cap - 1];
    AbsentFromShorterPrefix(R, cap, k);
    TakeRemoveAbsent(R, cap - 1, k);
    TakeCons(R, cap, k);
  }

  lemma AbsentFromShorterPrefix<K(!new)>(R: seq<K>, cap: nat, k: K)
    requires 1 <= cap <= |R| && k !in R[..cap]
    ensures k !in R[..cap - 1]
  {
    assert forall x :: x in R[..cap - 1] ==> x in R[..cap];
  }

  lemma TakeCons<K(!new)>(R: seq<K>, cap: nat, k: K)
    requires 1 <= cap <= |R| && k !in R[..cap - 1]
    ensures Take(cap, [k] + RemoveKey(R, k)) == [k] + Take(cap - 1, RemoveKey(R, k))
  {
    TakeRemoveAbsent(R, cap - 1, k);
  }

  /** The cache after a sequence of accesses, or the first fault. */
  function Run<K(==, !new), V>(c: Cache<K, V>, accesses: seq<Access<K, V>>): Result<Cache<K, V>, Fault>
    decreases |accesses|
  {
    if accesses == [] then Ok(c)
    else
      var c' :- Step(c, accesses[0]);
      Run(c', accesses[1..])
  }

  function ReplayAll<K(==, !new), V>(capacity: nat, r: History<K, V>, accesses: seq<Access<K, V>>): History<K, V>
    decreases |accesses|
  {
    if accesses == [] then r else ReplayAll(capacity, Replay(capacity, r, accesses[0]), accesses[1..])
  }

  /** Any sequence of `get`s and `put`s on a cache of positive capacity runs without fault,
      and afterwards the cache holds exactly the `capacity` most recently touched keys in
      recency order, each mapped to the value last written to it. */
  lemma {:induction false} RunDescribed<K(!new), V>(c: Cache<K, V>, r: History<K, V>, accesses: seq<Access<K, V>>)
    requires Describes(c, r)
    ensures Run(c, accesses).Ok?
    ensures Run(c, accesses).value.capacity == c.capacity
    ensures Describes(Run(c, accesses).value, ReplayAll(c.capacity, r, accesses))
    decreases |accesses|
  {
    if accesses != [] {
      StepDescribed(c, r, accesses[0]);
      var c' := Step(c, accesses[0]).value;
      RunDescribed(c', Replay(c.capacity, r, accesses[0]), accesses[1..]);
    }
  }

  /** A new cache with a positive capacity is described by the empty history. */
  lemma EmptyDescribed<K(!new), V>(capacity: int)
    requires 1 <= capacity
    ensures Describes(New<K, V>(capacity), History([], map[]))
  {
  }

  function Writes<K, V>(ks: seq<K>, v: V): (r: seq<Access<K, V>>)
    ensures |r| == |ks|
    ensures forall i :: 0 <= i < |ks| ==> r[i] == Write(ks[i], v)
  {
    seq(|ks|, i requires 0 <= i < |ks| => Write(ks[i], v))
  }

  lemma {:induction false} ReplayWrites<K(!new), V>(capacity: nat, r: History<K, V>, ks: seq<K>, v: V)
    ensures ReplayAll(capacity, r, Writes(ks, v)).touched == r.touched + ks
    decreases |ks|
  {
    if ks != [] {
      assert Writes(ks, v)[1..] == Writes(ks[1..], v);
      ReplayWrites(capacity, Replay(capacity, r, Write(ks[0], v)), ks[1..], v);
      assert r.touched + [ks[0]] + ks[1..] == r.touched + ks;
    }
  }

  /** Putting `capacity + 1` distinct keys into a new cache evicts exactly the first one. */
  lemma FillingEvictsFirst<K(!new), V>(capacity: int, ks: seq<K>, v: V)
    requires 1 <= capacity && |ks| == capacity + 1 && Distinct(ks)
    ensures Run(New<K, V>(capacity), Writes(ks, v)).Ok?
    ensures var c := Run(New<K, V>(capacity), Writes(ks, v)).value;
      && ks[0] !in c.index
      && (forall i :: 1 <= i < |ks| ==> ks[i] in c.index)
      && c.count == capacity
  {
    var r0: History<K, V> := History([], map[]);
    EmptyDescribed<K, V>(capacity);
    RunDescribed(New<K, V>(capacity), r0, Writes(ks, v));
    ReplayWrites(capacity, r0, ks, v);
    var c := Run(New<K, V>(capacity), Writes(ks, v)).value;
    var r := ReplayAll(capacity, r0, Writes(ks, v));
    assert r.touched == ks by {
      assert r0.touched + ks == ks;
    }
    assert c.order == Resident(capacity, ks);
    OldestDropsOut(ks, capacity);
  }

  /** Of `capacity + 1` distinct keys touched in turn, all but the first stay resident. */
  lemma OldestDropsOut<K(!new)>(ks: seq<K>, capacity: nat)
    requires 1 <= capacity && |ks| == capacity + 1 && Distinct(ks)
    ensures |Resident(capacity, ks)| == capacity
    ensures ks[0] !in Resident(capacity, ks)
    ensures forall i :: 1 <= i < |ks| ==> ks[i] in Resident(capacity, ks)
  {
    RecencyOfDistinct(ks);
    var R := Recency(ks);
    var T := Resident(capacity, ks);
    assert T == R[..capacity];
    forall j | 0 <= j < capacity ensures T[j] == ks[capacity - j] {
      assert T[j] == R[j];
    }
    assert ks[0] !in T by {
      forall j | 0 <= j < capacity ensures T[j] != ks[0] {
        assert T[j] == ks[capacity - j];
      }
    }
    forall i | 1 <= i < |ks| ensures ks[i] in T {
      assert T[capacity - i] == ks[i];
    }
  }
}
