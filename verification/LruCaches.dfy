/** The LRU cache as it is built: shared/include/Poco/LRUStrategy.h driven by AbstractCache.h. */
module LruCaches {
  import CacheOperations
  import opened Collections
  import opened IndexedLists
  import LruRuns

  lemma PushIsTouch<K(!new)>(order: seq<K>, k: K)
    requires k !in order
    ensures InsertAt(order, 0, k) == LruRuns.Touch(order, k)
  {
    WithoutAbsent(order, k);
  }

  lemma WithoutTwice<K(!new)>(order: seq<K>, k: K)
    ensures LruRuns.Touch(Without(order, k), k) == LruRuns.Touch(order, k)
  {
    WithoutAbsent(Without(order, k), k);
  }

  class LruStrategy<K(==, !new)> {
    const size: nat
    var keys: seq<Node<K, ()>>
    var keyIndex: map<K, nat>
    var nextId: nat

    ghost predicate Valid()
      reads this
    {
      size >= 1 && Linked(keys, keyIndex, nextId)
    }

    ghost function Order(): seq<K>
      reads this
    {
      KeysIn(keys)
    }

    constructor (size: nat)
      requires size >= 1
      ensures Valid() && Order() == [] && this.size == size
    {
      this.size := size;
      keys, keyIndex, nextId := [], map[], 0;
    }

    /** The key goes to the front. If it was listed its old node stays in the list, where the index no longer
        leads to it; the cache removes a key before it adds it. */
    method OnAdd(key: K)
      requires Valid()
      modifies this
      ensures Order() == [key] + old(Order())
      ensures Valid() <==> key !in old(Order())
      ensures key !in old(Order()) ==> Order() == LruRuns.Touch(old(Order()), key)
    {
      hide NoDuplicates;
      if key !in Order() {
        InsertKeepsLinked(keys, keyIndex, nextId + 1, 0, Node(nextId, key, ()));
        PushIsTouch(Order(), key);
      } else {
        ListedTwice(keys, keyIndex[key := nextId], nextId + 1, Node(nextId, key, ()));
      }
      PushedKeys(keys, Node(nextId, key, ()));
      keys := InsertAt(keys, 0, Node(nextId, key, ()));
      keyIndex := keyIndex[key := nextId];
      nextId := nextId + 1;
    }

    method OnRemove(key: K)
      requires Valid()
      modifies this
      ensures Valid() && Order() == Without(old(Order()), key)
    {
      if key in keyIndex {
        DropKeepsLinked(keys, keyIndex, nextId, key);
        keys := DropNode(keys, keyIndex[key]);
        keyIndex := keyIndex - {key};
      } else {
        assert key !in Order();
        WithoutAbsent(Order(), key);
      }
    }

    method OnUpdate(key: K)
      requires Valid()
      modifies this
      ensures Valid() && Order() == LruRuns.Touch(old(Order()), key)
    {
      ghost var before := Order();
      OnRemove(key);
      WithoutTwice(before, key);
      OnAdd(key);
    }

    /** list::splice moves the node itself to the front. */
    method OnGet(key: K)
      requires Valid()
      modifies this
      ensures Valid()
      ensures Order() == if key in old(Order()) then LruRuns.Touch(old(Order()), key) else old(Order())
    {
      hide NoDuplicates, Indexed, DropNode;
      IndexHasKey(keys, keyIndex, nextId, key);
      if key in keyIndex {
        MoveKeepsLinked(keys, keyIndex, nextId, key, ());
        PushIsTouch(Without(Order(), key), key);
        WithoutTwice(Order(), key);
        keys := InsertAt(DropNode(keys, keyIndex[key]), 0, Node(keyIndex[key], key, ()));
      }
    }

    method OnClear()
      requires Valid()
      modifies this
      ensures Valid() && Order() == []
    {
      keys, keyIndex := [], map[];
    }

    method OnIsValid(key: K) returns (valid: bool)
      requires Valid()
      ensures valid <==> key in Order()
    {
      valid := key in keyIndex;
    }

    /** Names the keys beyond the size, from the least recently used end; it removes nothing. */
    method OnReplace() returns (elemsToRemove: set<K>)
      requires Valid()
      ensures elemsToRemove == if |Order()| <= size then {} else Elements(Order()[size..])
    {
      elemsToRemove := {};
      IndexCount(keys, keyIndex, nextId);
      var curSize := |keyIndex|;
      if curSize < size {
        return;
      }
      var diff := curSize - size;
      var it := |keys| - 1;
      var i := 0;
      while i < diff
        invariant 0 <= i <= diff && it == |keys| - 1 - i
        invariant elemsToRemove == Elements(Order()[|keys| - i..])
      {
        assert Order()[it..] == [keys[it].key] + Order()[|keys| - i..];
        elemsToRemove := elemsToRemove + {keys[it].key};
        if it != 0 {
          it := it - 1;
        }
        i := i + 1;
      }
    }
  }

  /** The keys left when the given ones have been removed. */
  ghost function Others<K(!new)>(removed: set<K>): iset<K> {
    iset k | k !in removed
  }

  lemma {:induction false} FilterMinus<K(!new)>(s: seq<K>, removed: set<K>, x: K)
    ensures Without(LruRuns.Filter(s, Others(removed)), x) == LruRuns.Filter(s, Others(removed + {x}))
  {
    if s == [] {
    } else {
      FilterMinus(s[1..], removed, x);
    }
  }

  lemma RemovedThenStored<K(!new), V>(removed: map<K, V>, data: map<K, V>, k: K, v: V)
    requires removed == data - {k}
    ensures removed[k := v] == data[k := v]
  {
  }

  lemma DataMinus<K(!new), V>(data: map<K, V>, removed: set<K>, x: K)
    ensures data - removed - {x} == data - (removed + {x})
  {
  }

  lemma {:induction false} FilterAll<K(!new)>(s: seq<K>, keys: iset<K>)
    requires forall k :: k in s ==> k in keys
    ensures LruRuns.Filter(s, keys) == s
  {
    if s == [] {
    } else {
      FilterAll(s[1..], keys);
    }
  }

  lemma FilterNothing<K(!new)>(s: seq<K>)
    ensures LruRuns.Filter(s, Others({})) == s
  {
    FilterAll(s, Others({}));
  }

  lemma CutAsFilter<K(!new)>(order: seq<K>, n: nat)
    requires NoDuplicates(order) && n <= |order|
    ensures LruRuns.Filter(order, Others(Elements(order[n..]))) == order[..n]
  {
    var out := Elements(order[n..]);
    assert order == order[..n] + order[n..];
    LruRuns.FilterConcat(order[..n], order[n..], Others(out));
    FilterAll(order[..n], Others(out));
    LruRuns.FilterNone(order[n..], Others(out));
  }

  class LruCache<K(==, !new), V> {
    const strategy: LruStrategy<K>
    var data: map<K, V>

    /** What the cache is about, as LruRuns describes it. */
    ghost function Abs(): LruRuns.State<K, V>
      reads this, strategy
    {
      LruRuns.State(strategy.Order(), data)
    }

    ghost predicate Consistent()
      reads this, strategy
    {
      strategy.Valid() && LruRuns.Valid(Abs())
    }

    ghost predicate Valid()
      reads this, strategy
    {
      Consistent() && |Abs().order| <= strategy.size
    }

    constructor (size: nat)
      requires size >= 1
      ensures Valid() && Abs() == LruRuns.State([], map[]) && strategy.size == size && fresh(strategy)
    {
      strategy := new LruStrategy(size);
      data := map[];
    }

    /** None is InvalidArgumentException. */
    static method Create(size: nat) returns (cache: Option<LruCache<K, V>>)
      ensures cache.None? <==> size < 1
      ensures cache.Some? ==> cache.value.Valid() && cache.value.strategy.size == size &&
                              cache.value.Abs() == LruRuns.State([], map[])
    {
      if size < 1 {
        cache := None;
      } else {
        var c := new LruCache<K, V>(size);
        cache := Some(c);
      }
    }

    method DoRemove(key: K)
      requires Consistent()
      modifies this, strategy
      ensures Consistent()
      ensures Abs() == LruRuns.State(Without(old(Abs().order), key), old(data) - {key})
    {
      hide Linked;
      WithoutNoDuplicates(Abs().order, key);
      if key in data {
        strategy.OnRemove(key);
        data := data - {key};
      } else {
        WithoutAbsent(Abs().order, key);
        assert data - {key} == data;
      }
    }

    method DoReplace()
      requires Consistent()
      modifies this, strategy
      ensures Valid() && Abs() == LruRuns.Evict(strategy.size, old(Abs()))
    {
      hide Linked, NoDuplicates, Others, LruRuns.Filter;
      var delMe := strategy.OnReplace();
      ghost var order, before := Abs().order, data;
      RemoveAll(delMe);
      if |order| > strategy.size {
        CutAsFilter(order, strategy.size);
        CutData(order, before, strategy.size);
      } else {
        FilterNothing(order);
        assert before - {} == before;
      }
    }

    /** The loop of doReplace; the order in which the keys are visited does not matter. */
    method RemoveAll(keys: set<K>)
      requires Consistent()
      modifies this, strategy
      ensures Consistent()
      ensures Abs() == LruRuns.State(LruRuns.Filter(old(Abs().order), Others(keys)), old(data) - keys)
    {
      hide Linked, NoDuplicates, Others, LruRuns.Filter, LruRuns.Valid, Without;
      var delMe := keys;
      ghost var order, before, removed := Abs().order, data, {};
      FilterNothing(order);
      while delMe != {}
        invariant Consistent()
        invariant delMe + removed == keys
        invariant Abs() == LruRuns.State(LruRuns.Filter(order, Others(removed)), before - removed)
        decreases delMe
      {
        var key :| key in delMe;
        FilterMinus(order, removed, key);
        DataMinus(before, removed, key);
        DoRemove(key);
        delMe := delMe - {key};
        removed := removed + {key};
      }
    }

    method DoAdd(key: K, value: V)
      requires Valid()
      modifies this, strategy
      ensures Valid() && Abs() == LruRuns.Step(strategy.size, CacheOperations.Add(key, value), old(Abs()))
      ensures key in data && data[key] == value && Abs().order != [] && Abs().order[0] == key
      ensures forall k :: k in data && k != key ==> k in old(data) && data[k] == old(data)[k]
    {
      hide Linked, NoDuplicates, LruRuns.Evict;
      LruRuns.StoreEffect(strategy.size, CacheOperations.Add(key, value), Abs());
      ghost var order := Abs().order;
      LruRuns.TouchKeepsDistinct(order, key);
      DoRemove(key);
      WithoutTwice(order, key);
      strategy.OnAdd(key);
      RemovedThenStored(data, old(data), key, value);
      data := data[key := value];
      assert Abs() == LruRuns.State(LruRuns.Touch(order, key), old(data)[key := value]);
      DoReplace();
    }

    method DoUpdate(key: K, value: V)
      requires Valid()
      modifies this, strategy
      ensures Valid() && Abs() == LruRuns.Step(strategy.size, CacheOperations.Update(key, value), old(Abs()))
      ensures key in data && data[key] == value && Abs().order != [] && Abs().order[0] == key
      ensures forall k :: k in data && k != key ==> k in old(data) && data[k] == old(data)[k]
    {
      hide Linked;
      LruRuns.StoreEffect(strategy.size, CacheOperations.Update(key, value), Abs());
      LruRuns.TouchKeepsDistinct(Abs().order, key);
      if key !in data {
        strategy.OnAdd(key);
      } else {
        strategy.OnUpdate(key);
      }
      data := data[key := value];
      DoReplace();
    }

    method Remove(key: K)
      requires Valid()
      modifies this, strategy
      ensures Valid() && Abs() == LruRuns.Step(strategy.size, CacheOperations.Remove(key), old(Abs()))
      ensures data == old(data) - {key} && Abs().order == Without(old(Abs().order), key)
    {
      WithoutNoDuplicates(Abs().order, key);
      DoRemove(key);
    }

    method DoHas(key: K) returns (result: bool)
      requires Valid()
      ensures result <==> LruRuns.Result(Abs(), key).Some?
    {
      result := false;
      if key in data {
        result := strategy.OnIsValid(key);
      }
    }

    method DoGet(key: K) returns (result: Option<V>)
      requires Valid()
      modifies this, strategy
      ensures Valid() && Abs() == LruRuns.Step(strategy.size, CacheOperations.Get(key), old(Abs()))
      ensures result == LruRuns.Result(old(Abs()), key)
      ensures data == old(data)
      ensures Abs().order == if key in old(data) then LruRuns.Touch(old(Abs().order), key) else old(Abs().order)
    {
      hide Linked;
      LruRuns.TouchKeepsDistinct(Abs().order, key);
      result := None;
      if key in data {
        strategy.OnGet(key);
        var valid := strategy.OnIsValid(key);
        assert valid;  // an LRU strategy never invalidates a cached key
        result := Some(data[key]);
      }
    }

    method DoClear()
      requires Valid()
      modifies this, strategy
      ensures Valid() && Abs() == LruRuns.Step(strategy.size, CacheOperations.Clear, old(Abs()))
      ensures data == map[] && Abs().order == []
    {
      strategy.OnClear();
      data := map[];
    }

    method Size() returns (n: nat)
      requires Valid()
      modifies this, strategy
      ensures Valid() && Abs() == LruRuns.Step(strategy.size, CacheOperations.Replace, old(Abs())) && n == |data|
    {
      DoReplace();
      n := |data|;
    }
  }

  lemma CutData<K(!new), V>(order: seq<K>, data: map<K, V>, n: nat)
    requires NoDuplicates(order) && n <= |order| && (forall k :: k in data <==> k in order)
    ensures data - Elements(order[n..]) == LruRuns.Restrict(data, order[..n])
  {
    assert order == order[..n] + order[n..];
    forall k | k in data
      ensures k in order[..n] <==> k !in order[n..]
    {
    }
  }
}
