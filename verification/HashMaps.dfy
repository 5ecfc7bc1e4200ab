/** A map on top of the linear hash table: shared/include/Poco/HashMap.h. */
module HashMaps {
  import opened Collections
  import opened LinearHashTables

  /** Entries are equal, and hash alike, when their keys are. */
  datatype Entry<K, V> = Entry(first: K, second: V)

  ghost function Values<K, V>(m: map<K, Entry<K, V>>): map<K, V> {
    map k | k in m :: m[k].second
  }

  lemma ValuesUpdate<K, V>(m: map<K, Entry<K, V>>, k: K, v: V)
    ensures Values(m[k := Entry(k, v)]) == Values(m)[k := v]
  {
  }

  lemma ValuesRemove<K, V>(m: map<K, Entry<K, V>>, k: K)
    ensures Values(m - {k}) == Values(m) - {k}
  {
  }

  class HashMap<K(==, !new), V(!new)> {
    const table: LinearHashTable<Entry<K, V>, K>
    const initial: V

    ghost predicate Valid()
      reads this, table
    {
      table.Valid() && forall e :: table.keyOf(e) == e.first
    }

    ghost function Model(): map<K, V>
      requires Valid()
      reads this, table
    {
      Values(table.Contents())
    }

    /** initial stands for the value of a default-constructed Mapped. */
    constructor (hashOf: K -> nat, initial: V)
      ensures Valid() && Model() == map[] && this.initial == initial && fresh(table)
    {
      this.initial := initial;
      table := new LinearHashTable((e: Entry<K, V>) => e.first, hashOf);
    }

    method Find(key: K) returns (it: Iterator)
      requires Valid()
      ensures InRange(table.buckets, it)
      ensures it.At? <==> key in Model()
      ensures it.At? ==> table.buckets[it.bucket][it.slot] == Entry(key, Model()[key])
    {
      it := table.Find(key);
    }

    method Count(key: K) returns (n: nat)
      requires Valid()
      ensures n == if key in Model() then 1 else 0
    {
      var it := table.Find(key);
      n := if it == End then 0 else 1;
    }

    /** An existing entry is kept and its iterator returned. */
    method Insert(key: K, value: V) returns (it: Iterator, inserted: bool)
      requires Valid()
      modifies table
      ensures Valid()
      ensures inserted <==> key !in old(Model())
      ensures Model() == if inserted then old(Model())[key := value] else old(Model())
      ensures it.At? && InRange(table.buckets, it)
      ensures table.buckets[it.bucket][it.slot] == Entry(key, Model()[key])
    {
      hide Consistent, LinearHashTables.Model;
      ValuesUpdate(table.Contents(), key, value);
      ghost var m := table.Contents();
      it, inserted := table.Insert(Entry(key, value));
      assert table.Contents() == if inserted then m[key := Entry(key, value)] else m;
    }

    method Erase(key: K)
      requires Valid()
      modifies table
      ensures Valid() && Model() == old(Model()) - {key}
    {
      var it := Find(key);
      ValuesRemove(table.Contents(), key);
      if it == End {
        assert Model() - {key} == Model();
      }
      table.EraseAt(it);
    }

    /** The const subscript; None is NotFoundException. */
    method Lookup(key: K) returns (value: Option<V>)
      requires Valid()
      ensures value == if key in Model() then Some(Model()[key]) else None
    {
      var it := table.Find(key);
      value := if it == End then None else Some(table.buckets[it.bucket][it.slot].second);
    }

    /** The non-const subscript: inserts a default entry when the key is new. */
    method Subscript(key: K) returns (it: Iterator)
      requires Valid()
      modifies table
      ensures Valid()
      ensures Model() == if key in old(Model()) then old(Model()) else old(Model())[key := initial]
      ensures it.At? && InRange(table.buckets, it)
      ensures table.buckets[it.bucket][it.slot] == Entry(key, Model()[key])
    {
      var inserted;
      it, inserted := Insert(key, initial);
    }

    /** map[key] = value. */
    method Store(key: K, value: V)
      requires Valid()
      modifies table
      ensures Valid() && Model() == old(Model())[key := value]
    {
      hide Consistent, LinearHashTables.Model;
      var it := Subscript(key);
      ghost var m := Model();
      ValuesUpdate(table.Contents(), key, value);
      table.Assign(it, Entry(key, value));
      assert Model() == m[key := value];
    }

    method Clear()
      requires Valid()
      modifies table
      ensures Valid() && Model() == map[]
    {
      table.Clear();
    }

    method Size() returns (n: nat)
      requires Valid()
      ensures n == |Model()|
    {
      n := table.size;
      ModelSize(Bag(table.buckets), table.keyOf);
      assert Model().Keys == table.Contents().Keys;
    }
  }
}
