/** The expire caches as they are built: shared/include/Poco/ExpireStrategy.h and AccessExpireStrategy.h
    driven by AbstractCache.h. Every operation is given the one clock reading it works with. */
module ExpireCaches {
  import opened CacheOperations
  import opened Collections
  import opened IndexedLists
  import opened ExpireRuns

  // ----- the time index: a multimap from timestamps to keys ------------------------------------

  /** The nodes are in the order of their timestamps. */
  ghost predicate Sorted<K>(nodes: seq<Node<K, int>>) {
    forall i, j :: 0 <= i < j < |nodes| ==> nodes[i].tag <= nodes[j].tag
  }

  /** The timestamp of every listed key. */
  ghost predicate Stamped<K(!new)>(nodes: seq<Node<K, int>>, stamps: map<K, int>) {
    forall i :: 0 <= i < |nodes| ==> nodes[i].key in stamps && stamps[nodes[i].key] == nodes[i].tag
  }

  lemma DropKeepsStamped<K(!new)>(
    nodes: seq<Node<K, int>>, index: map<K, nat>, nextId: nat, stamps: map<K, int>, k: K)
    requires Linked(nodes, index, nextId) && Sorted(nodes) && Stamped(nodes, stamps) && k in index
    ensures var rest := DropNode(nodes, index[k]);
            Linked(rest, index - {k}, nextId) && Sorted(rest) && Stamped(rest, stamps - {k})
  {
    hide NoDuplicates, Indexed, DropNode, PositionOf, Sorted, Stamped;
    var p := DropByIndex(nodes, index, nextId, k);
    DropKeepsLinked(nodes, index, nextId, k);
    CutKeepsSorted(nodes, p);
    CutKeepsStamped(nodes, p, stamps, k);
  }

  lemma CutKeepsSorted<K>(nodes: seq<Node<K, int>>, p: nat)
    requires p < |nodes| && Sorted(nodes)
    ensures Sorted(nodes[..p] + nodes[p + 1..])
  {
    var rest := nodes[..p] + nodes[p + 1..];
    assert forall i :: 0 <= i < |rest| ==> rest[i] == nodes[if i < p then i else i + 1];
  }

  lemma CutKeepsStamped<K(!new)>(nodes: seq<Node<K, int>>, p: nat, stamps: map<K, int>, k: K)
    requires p < |nodes| && Stamped(nodes, stamps)
    requires KeysIn(nodes[..p] + nodes[p + 1..]) == Without(KeysIn(nodes), k)
    ensures Stamped(nodes[..p] + nodes[p + 1..], stamps - {k})
  {
    var rest := nodes[..p] + nodes[p + 1..];
    forall i | 0 <= i < |rest|
      ensures rest[i] == nodes[if i < p then i else i + 1] && rest[i].key != k
    {
      assert KeysIn(rest)[i] in Without(KeysIn(nodes), k);
    }
  }

  lemma InsertKeepsSorted<K>(nodes: seq<Node<K, int>>, q: nat, n: Node<K, int>)
    requires Sorted(nodes) && q <= |nodes| && (forall i :: 0 <= i < q ==> nodes[i].tag <= n.tag)
    requires forall i :: q <= i < |nodes| ==> n.tag < nodes[i].tag
    ensures Sorted(InsertAt(nodes, q, n))
  {
  }

  lemma InsertKeepsStamped<K(!new)>(
    nodes: seq<Node<K, int>>, index: map<K, nat>, nextId: nat, stamps: map<K, int>, q: nat, k: K, now: int)
    requires Linked(nodes, index, nextId) && Stamped(nodes, stamps) && k !in index && q <= |nodes|
    ensures var longer := InsertAt(nodes, q, Node(nextId, k, now));
            Linked(longer, index[k := nextId], nextId + 1) && Stamped(longer, stamps[k := now])
  {
    hide NoDuplicates;
    assert nextId !in IdsIn(nodes);
    InsertKeepsLinked(nodes, index, nextId + 1, q, Node(nextId, k, now));
    assert k !in KeysIn(nodes);
    assert forall i :: 0 <= i < |nodes| ==> KeysIn(nodes)[i] != k;
  }

  /** Expired in a sorted index is a prefix. */
  lemma ExpiredIsPrefix<K(!new)>(nodes: seq<Node<K, int>>, stamps: map<K, int>, now: int, limit: int, n: nat)
    requires Sorted(nodes) && Stamped(nodes, stamps) && n <= |nodes|
    requires forall k :: k in stamps ==> k in KeysIn(nodes)
    requires forall i :: 0 <= i < n ==> Elapsed(nodes[i].tag, now, limit)
    requires n < |nodes| ==> !Elapsed(nodes[n].tag, now, limit)
    ensures Elements(KeysIn(nodes)[..n]) == set k | k in stamps && Elapsed(stamps[k], now, limit)
  {
    forall k | k in stamps && Elapsed(stamps[k], now, limit)
      ensures k in KeysIn(nodes)[..n]
    {
      var j :| 0 <= j < |nodes| && KeysIn(nodes)[j] == k;
      assert j < n;
      assert KeysIn(nodes)[..n][j] == k;
    }
  }

  /** ExpireStrategy, or AccessExpireStrategy when access is set. */
  class ExpireStrategy<K(==, !new)> {
    const access: bool
    const expireTime: int
    var keys: map<K, nat>
    var keyIndex: seq<Node<K, int>>
    var nextId: nat
    ghost var stamps: map<K, int>

    /** Key map and time index are in bijection, and the index is in time order. */
    ghost predicate Valid()
      reads this
    {
      expireTime > 0 && Linked(keyIndex, keys, nextId) && Sorted(keyIndex) &&
      Stamped(keyIndex, stamps) && keys.Keys == stamps.Keys
    }

    constructor (access: bool, expireTime: int)
      requires expireTime > 0
      ensures Valid() && stamps == map[] && this.access == access && this.expireTime == expireTime
    {
      this.access, this.expireTime := access, expireTime;
      keys, keyIndex, nextId, stamps := map[], [], 0, map[];
    }

    /** multimap::insert puts the entry behind those with the same timestamp. */
    method UpperBound(now: int) returns (q: nat)
      requires Valid()
      ensures q <= |keyIndex| && (forall i :: 0 <= i < q ==> keyIndex[i].tag <= now)
      ensures forall i :: q <= i < |keyIndex| ==> now < keyIndex[i].tag
    {
      q := 0;
      while q < |keyIndex| && keyIndex[q].tag <= now
        invariant q <= |keyIndex| && forall i :: 0 <= i < q ==> keyIndex[i].tag <= now
      {
        q := q + 1;
      }
    }

    /** The entry the key may have goes; whether before or behind the insertion makes no difference. */
    method OnAdd(key: K, now: int)
      requires Valid()
      modifies this
      ensures Valid() && stamps == old(stamps)[key := now]
    {
      hide Linked, Sorted, Stamped;
      OnRemove(key);
      var q := UpperBound(now);
      InsertKeepsSorted(keyIndex, q, Node(nextId, key, now));
      InsertKeepsStamped(keyIndex, keys, nextId, stamps, q, key, now);
      keyIndex := InsertAt(keyIndex, q, Node(nextId, key, now));
      keys := keys[key := nextId];
      nextId := nextId + 1;
      stamps := stamps[key := now];
    }

    method OnRemove(key: K)
      requires Valid()
      modifies this
      ensures Valid() && stamps == old(stamps) - {key}
    {
      hide Linked, Sorted, Stamped;
      if key in keys {
        DropKeepsStamped(keyIndex, keys, nextId, stamps, key);
        keyIndex := DropNode(keyIndex, keys[key]);
        keys := keys - {key};
      }
      stamps := stamps - {key};
      assert key !in old(stamps) ==> old(stamps) - {key} == old(stamps);
    }

    method OnUpdate(key: K, now: int)
      requires Valid()
      modifies this
      ensures Valid() && stamps == old(stamps)[key := now]
    {
      OnRemove(key);
      OnAdd(key, now);
    }

    /** Renews the timestamp under access expiry, unless it has expired; otherwise changes nothing. */
    method OnGet(key: K, now: int)
      requires Valid()
      modifies this
      ensures Valid()
      ensures stamps == if access && key in old(stamps) && !Elapsed(old(stamps)[key], now, expireTime)
                        then old(stamps)[key := now] else old(stamps)
    {
      if access && key in keys {
        var expired := IsElapsedFor(key, now);
        if !expired {
          OnUpdate(key, now);
        }
      }
    }

    /** it->second->first.isElapsed(_expireTime) */
    method IsElapsedFor(key: K, now: int) returns (elapsed: bool)
      requires Valid() && key in keys
      ensures elapsed == Elapsed(stamps[key], now, expireTime)
    {
      hide NoDuplicates, Sorted;
      ghost var p := DropByIndex(keyIndex, keys, nextId, key);
      elapsed := Elapsed(keyIndex[PositionOf(keyIndex, keys[key])].tag, now, expireTime);
    }

    method OnClear()
      requires Valid()
      modifies this
      ensures Valid() && stamps == map[]
    {
      keys, keyIndex, stamps := map[], [], map[];
    }

    method OnIsValid(key: K, now: int) returns (valid: bool)
      requires Valid()
      ensures valid <==> key in stamps && !Elapsed(stamps[key], now, expireTime)
    {
      if key in keys {
        var elapsed := IsElapsedFor(key, now);
        valid := !elapsed;
      } else {
        valid := false;
      }
    }

    /** Scans the index from its oldest entry and stops at the first that has not expired. */
    method OnReplace(now: int) returns (elemsToRemove: set<K>)
      requires Valid()
      ensures elemsToRemove == set k | k in stamps && Elapsed(stamps[k], now, expireTime)
    {
      elemsToRemove := {};
      var it := 0;
      while it < |keyIndex| && Elapsed(keyIndex[it].tag, now, expireTime)
        invariant it <= |keyIndex|
        invariant forall i :: 0 <= i < it ==> Elapsed(keyIndex[i].tag, now, expireTime)
        invariant elemsToRemove == Elements(KeysIn(keyIndex)[..it])
      {
        assert KeysIn(keyIndex)[..it + 1] == KeysIn(keyIndex)[..it] + [keyIndex[it].key];
        elemsToRemove := elemsToRemove + {keyIndex[it].key};
        it := it + 1;
      }
      ExpiredIsPrefix(keyIndex, stamps, now, expireTime, it);
    }
  }

  // ----- the cache -----------------------------------------------------------------------------

  ghost function Join<K, V>(data: map<K, V>, stamps: map<K, int>): map<K, Dated<V>>
    requires data.Keys == stamps.Keys
  {
    map k | k in data :: Dated(data[k], stamps[k])
  }

  lemma JoinStore<K, V>(data: map<K, V>, stamps: map<K, int>, k: K, v: V, now: int)
    requires data.Keys == stamps.Keys
    ensures Join(data[k := v], stamps[k := now]) == Join(data, stamps)[k := Dated(v, now)]
  {
  }

  lemma JoinRenew<K, V>(data: map<K, V>, stamps: map<K, int>, k: K, now: int)
    requires data.Keys == stamps.Keys && k in data
    ensures Join(data, stamps[k := now]) == Join(data, stamps)[k := Dated(data[k], now)]
  {
  }

  lemma JoinRemove<K, V>(data: map<K, V>, stamps: map<K, int>, keys: set<K>)
    requires data.Keys == stamps.Keys
    ensures Join(data - keys, stamps - keys) == Join(data, stamps) - keys
  {
  }

  lemma PruneIsRemove<K, V>(data: map<K, V>, stamps: map<K, int>, expired: set<K>, now: int, limit: int)
    requires data.Keys == stamps.Keys
    requires expired == set k | k in stamps && Elapsed(stamps[k], now, limit)
    ensures Join(data, stamps) - expired == Prune(Join(data, stamps), now, limit)
  {
  }

  class ExpireCache<K(==, !new), V> {
    const strategy: ExpireStrategy<K>
    var data: map<K, V>

    ghost predicate Valid()
      reads this, strategy
    {
      strategy.Valid() && data.Keys == strategy.stamps.Keys
    }

    ghost function Abs(): map<K, Dated<V>>
      requires Valid()
      reads this, strategy
    {
      Join(data, strategy.stamps)
    }

    constructor (access: bool, expireTime: int)
      requires expireTime > 0
      ensures Valid() && Abs() == map[] && fresh(strategy)
      ensures strategy.access == access && strategy.expireTime == expireTime
    {
      strategy := new ExpireStrategy(access, expireTime);
      data := map[];
    }

    /** The limit comes in milliseconds; None is InvalidArgumentException. */
    static method Create(access: bool, milliseconds: int) returns (cache: Option<ExpireCache<K, V>>)
      ensures cache.None? <==> milliseconds < 25
      ensures cache.Some? ==> cache.value.Valid() && cache.value.Abs() == map[] &&
                              cache.value.strategy.access == access &&
                              cache.value.strategy.expireTime == milliseconds * 1000
    {
      var expireTime := milliseconds * 1000;
      if expireTime < 25000 {
        cache := None;
      } else {
        var c := new ExpireCache<K, V>(access, expireTime);
        cache := Some(c);
      }
    }

    method DoRemove(key: K)
      requires Valid()
      modifies this, strategy
      ensures Valid() && Abs() == old(Abs()) - {key}
      ensures data == old(data) - {key} && strategy.stamps == old(strategy.stamps) - {key}
    {
      hide Linked, Sorted, Stamped;
      JoinRemove(data, strategy.stamps, {key});
      if key in data {
        strategy.OnRemove(key);
        data := data - {key};
      } else {
        assert data - {key} == data && strategy.stamps - {key} == strategy.stamps;
      }
    }

    method DoReplace(now: int)
      requires Valid()
      modifies this, strategy
      ensures Valid() && Abs() == Prune(old(Abs()), now, strategy.expireTime)
    {
      hide Linked, Sorted, Stamped;
      var delMe := strategy.OnReplace(now);
      PruneIsRemove(data, strategy.stamps, delMe, now, strategy.expireTime);
      RemoveAll(delMe);
    }

    /** The loop of doReplace; the order in which the keys are visited does not matter. */
    method RemoveAll(keys: set<K>)
      requires Valid()
      modifies this, strategy
      ensures Valid() && Abs() == old(Abs()) - keys
    {
      hide Linked, Sorted, Stamped, Join;
      var delMe := keys;
      ghost var before, removed := Abs(), {};
      assert before - {} == before;
      while delMe != {}
        invariant Valid() && delMe + removed == keys
        invariant Abs() == before - removed
        decreases delMe
      {
        var key :| key in delMe;
        assert before - removed - {key} == before - (removed + {key});
        DoRemove(key);
        delMe := delMe - {key};
        removed := removed + {key};
      }
    }

    method DoAdd(key: K, value: V, now: int)
      requires Valid()
      modifies this, strategy
      ensures Valid()
      ensures Abs() == Step(strategy.access, strategy.expireTime, Event(Add(key, value), now), old(Abs()))
    {
      hide Linked, Sorted, Stamped, Prune;
      JoinStore(data, strategy.stamps, key, value, now);
      ghost var d, s := data, strategy.stamps;
      DoRemove(key);
      strategy.OnAdd(key, now);
      data := data[key := value];
      assert data == d[key := value] && strategy.stamps == s[key := now];
      DoReplace(now);
    }

    method DoUpdate(key: K, value: V, now: int)
      requires Valid()
      modifies this, strategy
      ensures Valid()
      ensures Abs() == Step(strategy.access, strategy.expireTime, Event(Update(key, value), now), old(Abs()))
    {
      hide Linked, Sorted, Stamped, Prune;
      JoinStore(data, strategy.stamps, key, value, now);
      if key !in data {
        strategy.OnAdd(key, now);
      } else {
        strategy.OnUpdate(key, now);
      }
      data := data[key := value];
      DoReplace(now);
    }

    method Remove(key: K, now: int)
      requires Valid()
      modifies this, strategy
      ensures Valid()
      ensures Abs() == Step(strategy.access, strategy.expireTime, Event(CacheOperations.Remove(key), now), old(Abs()))
      ensures Abs() == old(Abs()) - {key}
    {
      DoRemove(key);
    }

    method DoHas(key: K, now: int) returns (result: bool)
      requires Valid()
      ensures result <==> Result(Abs(), key, now, strategy.expireTime).Some?
    {
      result := false;
      if key in data {
        result := strategy.OnIsValid(key, now);
      }
    }

    /** A hit returns the value and may renew it; an expired entry is removed. */
    method DoGet(key: K, now: int) returns (result: Option<V>)
      requires Valid()
      modifies this, strategy
      ensures Valid()
      ensures Abs() == Step(strategy.access, strategy.expireTime, Event(Get(key), now), old(Abs()))
      ensures result == Result(old(Abs()), key, now, strategy.expireTime)
    {
      hide Linked, Sorted, Stamped;
      result := None;
      if key in data {
        JoinRenew(data, strategy.stamps, key, now);
        strategy.OnGet(key, now);
        var valid := strategy.OnIsValid(key, now);
        if !valid {
          DoRemove(key);
        } else {
          result := Some(data[key]);
        }
      }
    }

    method DoClear(now: int)
      requires Valid()
      modifies this, strategy
      ensures Valid()
      ensures Abs() == Step(strategy.access, strategy.expireTime, Event(Clear, now), old(Abs()))
      ensures Abs() == map[]
    {
      strategy.OnClear();
      data := map[];
    }

    method Size(now: int) returns (n: nat)
      requires Valid()
      modifies this, strategy
      ensures Valid() && n == |data|
      ensures Abs() == Step(strategy.access, strategy.expireTime, Event(Replace, now), old(Abs()))
    {
      DoReplace(now);
      n := |data|;
    }
  }
}
