/** The list-based multimap: shared/include/Poco/ListMap.h. */
module ListMaps {
  import opened Collections

  datatype Entry<K, V> = Entry(key: K, value: V)

  // ----- blocks of equal keys on values --------------------------------------------------------

  /** Equal elements stand together. */
  ghost predicate Blocks<C>(s: seq<C>) {
    forall i, j, k :: 0 <= i < j < k < |s| && s[i] == s[k] ==> s[j] == s[i]
  }

  /** The equality class of every key; canon names it, for instance as the lower-case form of the key. */
  function Classes<K, V, C>(list: seq<Entry<K, V>>, canon: K -> C): (s: seq<C>)
    ensures |s| == |list| && forall i :: 0 <= i < |s| ==> s[i] == canon(list[i].key)
  {
    seq(|list|, i requires 0 <= i < |list| => canon(list[i].key))
  }

  /** Entries with equal keys stand together. */
  ghost predicate Contiguous<K, V, C>(list: seq<Entry<K, V>>, canon: K -> C) {
    Blocks(Classes(list, canon))
  }

  lemma BlocksInsert<C>(s: seq<C>, i: nat, p: nat, c: C)
    requires Blocks(s) && i <= p <= |s| && (forall j :: 0 <= j < |s| ==> (s[j] == c <==> i <= j < p))
    requires i < p || p == |s|
    ensures Blocks(s[..p] + [c] + s[p..])
  {
    var r := s[..p] + [c] + s[p..];
    assert i < p ==> s[p - 1] == c;
    forall a, b, d | 0 <= a < b < d < |r| && r[a] == r[d]
      ensures r[b] == r[a]
    {
      if r[a] != c {
        assert s[if a < p then a else a - 1] == s[if d < p then d else d - 1];
        if b != p {
          assert r[b] == s[if b < p then b else b - 1];
        }
      }
    }
  }

  lemma BlocksCut<C>(s: seq<C>, i: nat, p: nat)
    requires Blocks(s) && i <= p <= |s|
    ensures Blocks(s[..i] + s[p..])
  {
    var r := s[..i] + s[p..];
    assert forall j :: 0 <= j < |r| ==> r[j] == s[if j < i then j else j + p - i];
  }

  /** The entries of one key, in order, and all the others, in order. */
  function Of<K, V, C(==)>(list: seq<Entry<K, V>>, canon: K -> C, c: C): seq<Entry<K, V>> {
    if list == [] then []
    else if canon(list[0].key) == c then [list[0]] + Of(list[1..], canon, c)
    else Of(list[1..], canon, c)
  }

  function Others<K, V, C(==)>(list: seq<Entry<K, V>>, canon: K -> C, c: C): seq<Entry<K, V>> {
    if list == [] then []
    else if canon(list[0].key) == c then Others(list[1..], canon, c)
    else [list[0]] + Others(list[1..], canon, c)
  }

  function FirstOf<K, V, C(==)>(list: seq<Entry<K, V>>, canon: K -> C, c: C): (i: nat)
    ensures i <= |list| && (i < |list| ==> canon(list[i].key) == c)
    ensures forall j :: 0 <= j < i ==> canon(list[j].key) != c
  {
    if list == [] || canon(list[0].key) == c then 0 else 1 + FirstOf(list[1..], canon, c)
  }

  /** The first position from j on that does not hold the key. */
  function EndFrom<K, V, C(==)>(list: seq<Entry<K, V>>, canon: K -> C, c: C, j: nat): (p: nat)
    requires j <= |list|
    ensures j <= p <= |list| && (p < |list| ==> canon(list[p].key) != c)
    ensures forall k :: j <= k < p ==> canon(list[k].key) == c
    decreases |list| - j
  {
    if j < |list| && canon(list[j].key) == c then EndFrom(list, canon, c, j + 1) else j
  }

  lemma {:induction false} NoneOf<K, V, C>(list: seq<Entry<K, V>>, canon: K -> C, c: C)
    requires forall j :: 0 <= j < |list| ==> canon(list[j].key) != c
    ensures Of(list, canon, c) == [] && Others(list, canon, c) == list
  {
    if list == [] {
    } else {
      NoneOf(list[1..], canon, c);
    }
  }

  lemma {:induction false} AllOf<K, V, C>(list: seq<Entry<K, V>>, canon: K -> C, c: C)
    requires forall j :: 0 <= j < |list| ==> canon(list[j].key) == c
    ensures Of(list, canon, c) == list && Others(list, canon, c) == []
  {
    if list == [] {
    } else {
      AllOf(list[1..], canon, c);
    }
  }

  lemma {:induction false} SplitConcat<K, V, C>(
    a: seq<Entry<K, V>>, b: seq<Entry<K, V>>, canon: K -> C, c: C)
    ensures Of(a + b, canon, c) == Of(a, canon, c) + Of(b, canon, c)
    ensures Others(a + b, canon, c) == Others(a, canon, c) + Others(b, canon, c)
  {
    if a == [] {
      assert a + b == b;
    } else {
      var s, h := a + b, [a[0]];
      assert s[0] == a[0] && s[1..] == a[1..] + b;
      SplitConcat(a[1..], b, canon, c);
      assert h + (Of(a[1..], canon, c) + Of(b, canon, c)) == h + Of(a[1..], canon, c) + Of(b, canon, c);
      assert h + (Others(a[1..], canon, c) + Others(b, canon, c)) == h + Others(a[1..], canon, c) + Others(b, canon, c);
    }
  }

  /** The position behind the first block of the key, which is where an insertion goes. */
  function BlockEnd<K, V, C(==)>(list: seq<Entry<K, V>>, canon: K -> C, c: C): (p: nat)
    ensures FirstOf(list, canon, c) <= p <= |list|
    ensures forall j :: FirstOf(list, canon, c) <= j < p ==> canon(list[j].key) == c
    ensures p < |list| ==> canon(list[p].key) != c && FirstOf(list, canon, c) < p
  {
    EndFrom(list, canon, c, FirstOf(list, canon, c))
  }

  /** What erase(key) leaves: the first block is cut out and the rest is not looked at. */
  function CutBlock<K, V, C(==)>(list: seq<Entry<K, V>>, canon: K -> C, c: C): seq<Entry<K, V>> {
    list[..FirstOf(list, canon, c)] + list[BlockEnd(list, canon, c)..]
  }

  lemma SplitAtBlock<K, V, C>(list: seq<Entry<K, V>>, canon: K -> C, c: C)
    ensures var i, p := FirstOf(list, canon, c), BlockEnd(list, canon, c);
            Of(list, canon, c) == list[i..p] + Of(list[p..], canon, c) &&
            Others(list, canon, c) == list[..i] + Others(list[p..], canon, c)
  {
    hide FirstOf, BlockEnd;
    var i, p := FirstOf(list, canon, c), BlockEnd(list, canon, c);
    var head, block, tail := list[..i], list[i..p], list[p..];
    assert list == head + (block + tail);
    SplitConcat(head, block + tail, canon, c);
    SplitConcat(block, tail, canon, c);
    NoneOf(head, canon, c);
    AllOf(block, canon, c);
  }

  /** The early return removes every entry of the key exactly when the list has no second block of it. */
  lemma CutBlockRemovesAllIff<K, V, C>(list: seq<Entry<K, V>>, canon: K -> C, c: C)
    ensures CutBlock(list, canon, c) == Others(list, canon, c)
        <==> (forall j :: BlockEnd(list, canon, c) <= j < |list| ==> canon(list[j].key) != c)
  {
    hide FirstOf, BlockEnd, Of, Others;
    var i, p := FirstOf(list, canon, c), BlockEnd(list, canon, c);
    var tail := list[p..];
    SplitAtBlock(list, canon, c);
    OthersAreAllIff(tail, canon, c);
    SamePrefix(list[..i], Others(tail, canon, c), tail);
    InTail(list, p, canon, c);
  }

  lemma InTail<K, V, C>(list: seq<Entry<K, V>>, p: nat, canon: K -> C, c: C)
    requires p <= |list|
    ensures (forall j :: 0 <= j < |list[p..]| ==> canon(list[p..][j].key) != c)
        <==> (forall j :: p <= j < |list| ==> canon(list[j].key) != c)
  {
    assert forall j :: p <= j < |list| ==> list[j] == list[p..][j - p];
  }

  lemma SamePrefix<T>(a: seq<T>, b: seq<T>, c: seq<T>)
    ensures a + b == a + c <==> b == c
  {
    if a + b == a + c {
      assert b == (a + b)[|a|..] && c == (a + c)[|a|..];
    }
  }

  lemma OthersAreAllIff<K, V, C>(list: seq<Entry<K, V>>, canon: K -> C, c: C)
    ensures Others(list, canon, c) == list <==> (forall j :: 0 <= j < |list| ==> canon(list[j].key) != c)
  {
    hide Of, Others;
    if j :| 0 <= j < |list| && canon(list[j].key) == c {
      SomeOf(list, canon, c, j);
    } else {
      NoneOf(list, canon, c);
    }
  }

  lemma {:induction false} SplitLengths<K, V, C>(list: seq<Entry<K, V>>, canon: K -> C, c: C)
    ensures |Of(list, canon, c)| + |Others(list, canon, c)| == |list|
  {
    if list == [] {
    } else {
      SplitLengths(list[1..], canon, c);
    }
  }

  lemma SomeOf<K, V, C>(list: seq<Entry<K, V>>, canon: K -> C, c: C, j: nat)
    requires j < |list| && canon(list[j].key) == c
    ensures |Others(list, canon, c)| < |list|
  {
    assert list == list[..j] + ([list[j]] + list[j + 1..]);
    SplitConcat(list[..j], [list[j]] + list[j + 1..], canon, c);
    SplitConcat([list[j]], list[j + 1..], canon, c);
    SplitLengths(list[..j], canon, c);
    SplitLengths(list[j + 1..], canon, c);
    AllOf([list[j]], canon, c);
  }

  /** In a contiguous list there is no second block. */
  lemma ContiguousHasOneBlock<K, V, C>(list: seq<Entry<K, V>>, canon: K -> C, c: C)
    requires Contiguous(list, canon)
    ensures forall j :: BlockEnd(list, canon, c) <= j < |list| ==> canon(list[j].key) != c
  {
    hide FirstOf, BlockEnd;
    var i, p, s := FirstOf(list, canon, c), BlockEnd(list, canon, c), Classes(list, canon);
    forall j | p <= j < |list|
      ensures canon(list[j].key) != c
    {
      assert s[i] == c && s[p] != c;
    }
  }

  function Inserted<K, V, C(==)>(list: seq<Entry<K, V>>, canon: K -> C, e: Entry<K, V>): seq<Entry<K, V>> {
    var p := BlockEnd(list, canon, canon(e.key));
    list[..p] + [e] + list[p..]
  }

  lemma InsertKeepsContiguous<K, V, C>(list: seq<Entry<K, V>>, canon: K -> C, e: Entry<K, V>)
    requires Contiguous(list, canon)
    ensures Contiguous(Inserted(list, canon, e), canon)
  {
    hide FirstOf, BlockEnd, Blocks;
    var c, s := canon(e.key), Classes(list, canon);
    var i, p := FirstOf(list, canon, c), BlockEnd(list, canon, c);
    ContiguousHasOneBlock(list, canon, c);
    BlocksInsert(s, i, p, c);
    assert Classes(Inserted(list, canon, e), canon) == s[..p] + [c] + s[p..];
  }

  lemma NewKeyIsLast<K, V, C>(list: seq<Entry<K, V>>, canon: K -> C, c: C)
    ensures Of(list, canon, c) == [] ==> BlockEnd(list, canon, c) == |list|
  {
    FirstIsHead(list, canon, c);
  }

  /** An insertion puts a new key at the end; it appends to the entries of its key and leaves the others and
      their order alone. */
  lemma InsertAppends<K, V, C>(list: seq<Entry<K, V>>, canon: K -> C, e: Entry<K, V>)
    requires Contiguous(list, canon)
    ensures var r, c := Inserted(list, canon, e), canon(e.key);
            Of(r, canon, c) == Of(list, canon, c) + [e] && Others(r, canon, c) == Others(list, canon, c) &&
            (Of(list, canon, c) == [] ==> r == list + [e])
  {
    hide FirstOf, BlockEnd, Of, Others, Contiguous;
    var c := canon(e.key);
    var p := BlockEnd(list, canon, c);
    var a, b := list[..p], list[p..];
    NewKeyIsLast(list, canon, c);
    assert list == a + b;
    assert Inserted(list, canon, e) == a + ([e] + b);
    SplitConcat(a, b, canon, c);
    SplitConcat(a, [e] + b, canon, c);
    SplitConcat([e], b, canon, c);
    AllOf([e], canon, c);
    ContiguousHasOneBlock(list, canon, c);
    assert forall j :: 0 <= j < |b| ==> b[j] == list[p + j];
    NoneOf(b, canon, c);
  }

  lemma CutKeepsContiguous<K, V, C>(list: seq<Entry<K, V>>, canon: K -> C, i: nat, p: nat)
    requires Contiguous(list, canon) && i <= p <= |list|
    ensures Contiguous(list[..i] + list[p..], canon)
  {
    hide Blocks;
    BlocksCut(Classes(list, canon), i, p);
    assert Classes(list[..i] + list[p..], canon) == Classes(list, canon)[..i] + Classes(list, canon)[p..];
  }

  // ----- the map -------------------------------------------------------------------------------

  class ListMap<K, V, C(==)> {
    const canon: K -> C
    var list: seq<Entry<K, V>>

    ghost predicate Valid()
      reads this
    {
      Contiguous(list, canon)
    }

    constructor (canon: K -> C)
      ensures Valid() && list == [] && this.canon == canon
    {
      this.canon, list := canon, [];
    }

    /** ListMap(initialReserve) does not reserve room: it fills the list with default entries. */
    constructor Reserve(canon: K -> C, initialReserve: nat, initial: Entry<K, V>)
      ensures Valid() && this.canon == canon
      ensures list == seq(initialReserve, _ => initial) && (list == [] <==> initialReserve == 0)
    {
      this.canon, list := canon, seq(initialReserve, _ => initial);
    }

    method Find(key: K) returns (it: nat)
      ensures it == FirstOf(list, canon, canon(key))
    {
      it := 0;
      assert list[0..] == list;
      while it < |list|
        invariant it <= |list|
        invariant FirstOf(list, canon, canon(key)) == it + FirstOf(list[it..], canon, canon(key))
      {
        if canon(list[it].key) == canon(key) {
          return;
        }
        it := it + 1;
      }
    }

    /** The new entry goes behind the block of its key. */
    method Insert(e: Entry<K, V>) returns (it: nat)
      requires Valid()
      modifies this
      ensures Valid() && list == Inserted(old(list), canon, e)
      ensures it < |list| && list[it] == e && list[..it] + list[it + 1..] == old(list)
    {
      hide FirstOf, BlockEnd, Contiguous;
      InsertKeepsContiguous(list, canon, e);
      it := Find(e.key);
      ghost var first := it;
      while it < |list| && canon(list[it].key) == canon(e.key)
        invariant first <= it <= BlockEnd(list, canon, canon(e.key))
      {
        it := it + 1;
      }
      list := list[..it] + [e] + list[it..];
    }

    /** erase(key) stops behind the first block, and that is enough. */
    method Erase(key: K) returns (count: nat)
      requires Valid()
      modifies this
      ensures Valid() && list == Others(old(list), canon, canon(key))
      ensures count == |Of(old(list), canon, canon(key))|
    {
      hide FirstOf, BlockEnd, Contiguous;
      ghost var c, before := canon(key), list;
      ContiguousHasOneBlock(list, canon, c);
      CutBlockRemovesAllIff(list, canon, c);
      CutKeepsContiguous(list, canon, FirstOf(list, canon, c), BlockEnd(list, canon, c));
      SplitLengths(list, canon, c);
      count := EraseBlock(key);
    }

    /** The loop: it erases as long as it sees the key and returns at the first other entry behind. */
    method EraseBlock(key: K) returns (count: nat)
      modifies this
      ensures list == CutBlock(old(list), canon, canon(key)) && |list| == |old(list)| - count
    {
      hide FirstOf, BlockEnd;
      count := 0;
      var it := Find(key);
      ghost var before, first, end := list, it, BlockEnd(list, canon, canon(key));
      var removed := false;
      while it < |list|
        invariant it == first && first + count <= end
        invariant list == before[..first] + before[first + count..]
        invariant removed <==> count > 0
        decreases |list|
      {
        assert list[it] == before[first + count];
        if canon(list[it].key) == canon(key) {
          count := count + 1;
          list := list[..it] + list[it + 1..];
          removed := true;
        } else {
          if removed {
            return;
          }
          assert false;  // find() has left no other entry in front of the block
        }
      }
    }

    /** erase(iterator) */
    method EraseAt(it: nat)
      requires Valid() && it < |list|
      modifies this
      ensures Valid() && list == old(list)[..it] + old(list)[it + 1..]
    {
      CutKeepsContiguous(list, canon, it, it + 1);
      list := list[..it] + list[it + 1..];
    }

    /** The non-const subscript: a new key is inserted with a default value. */
    method Subscript(key: K, initial: V) returns (it: nat)
      requires Valid()
      modifies this
      ensures Valid() && it < |list| && canon(list[it].key) == canon(key)
      ensures var i := FirstOf(old(list), canon, canon(key));
              if i < |old(list)| then list == old(list) && it == i
              else list == Inserted(old(list), canon, Entry(key, initial)) && list[it] == Entry(key, initial)
    {
      it := Find(key);
      if it == |list| {
        it := Insert(Entry(key, initial));
      }
    }

    /** The const subscript finds the first entry; None is NotFoundException. */
    method Lookup(key: K) returns (value: Option<V>)
      ensures var of := Of(list, canon, canon(key));
              value == if of == [] then None else Some(of[0].value)
    {
      var it := Find(key);
      FirstIsHead(list, canon, canon(key));
      value := if it < |list| then Some(list[it].value) else None;
    }
  }

  lemma FirstIsHead<K, V, C>(list: seq<Entry<K, V>>, canon: K -> C, c: C)
    ensures var i, of := FirstOf(list, canon, c), Of(list, canon, c);
            (i < |list| <==> of != []) && (i < |list| ==> of[0] == list[i])
  {
  }
}
