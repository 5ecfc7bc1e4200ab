/** A node container beside an index from keys to iterators, as both cache strategies keep them. */
module IndexedLists {
  import opened Collections

  /** A container node; its id stands for the iterators that point to it. */
  datatype Node<K, P> = Node(id: nat, key: K, tag: P)

  function KeysIn<K, P>(nodes: seq<Node<K, P>>): (keys: seq<K>)
    ensures |keys| == |nodes| && forall i :: 0 <= i < |nodes| ==> keys[i] == nodes[i].key
  {
    seq(|nodes|, i requires 0 <= i < |nodes| => nodes[i].key)
  }

  function IdsIn<K, P>(nodes: seq<Node<K, P>>): (ids: seq<nat>)
    ensures |ids| == |nodes| && forall i :: 0 <= i < |nodes| ==> ids[i] == nodes[i].id
  {
    seq(|nodes|, i requires 0 <= i < |nodes| => nodes[i].id)
  }

  /** list::erase through an iterator. */
  function DropNode<K, P>(nodes: seq<Node<K, P>>, id: nat): seq<Node<K, P>> {
    if nodes == [] then []
    else if nodes[0].id == id then nodes[1..]
    else [nodes[0]] + DropNode(nodes[1..], id)
  }

  lemma {:induction false} DropNodeAt<K, P>(nodes: seq<Node<K, P>>, p: nat)
    requires p < |nodes| && forall i :: 0 <= i < p ==> nodes[i].id != nodes[p].id
    ensures DropNode(nodes, nodes[p].id) == nodes[..p] + nodes[p + 1..]
  {
    if p == 0 {
    } else {
      var tail := nodes[1..];
      DropNodeAt(tail, p - 1);
      var a, b := tail[..p - 1], tail[p..];
      assert DropNode(nodes, nodes[p].id) == [nodes[0]] + (a + b) == [nodes[0]] + a + b;
      assert nodes[..p] == [nodes[0]] + a && nodes[p + 1..] == b;
    }
  }

  /** Where an iterator points. */
  function PositionOf<K, P>(nodes: seq<Node<K, P>>, id: nat): nat {
    if nodes == [] || nodes[0].id == id then 0 else 1 + PositionOf(nodes[1..], id)
  }

  lemma {:induction false} PositionOfNode<K, P>(nodes: seq<Node<K, P>>, p: nat)
    requires p < |nodes| && forall i :: 0 <= i < p ==> nodes[i].id != nodes[p].id
    ensures PositionOf(nodes, nodes[p].id) == p
  {
    if p == 0 {
    } else {
      PositionOfNode(nodes[1..], p - 1);
    }
  }

  /** No key is listed twice and the index maps each listed key to its own node. */
  ghost predicate Linked<K(!new), P>(nodes: seq<Node<K, P>>, index: map<K, nat>, nextId: nat) {
    NoDuplicates(KeysIn(nodes)) && NoDuplicates(IdsIn(nodes)) && Indexed(nodes, index, nextId)
  }

  ghost predicate Indexed<K(!new), P>(nodes: seq<Node<K, P>>, index: map<K, nat>, nextId: nat) {
    (forall i :: 0 <= i < |nodes| ==>
      nodes[i].id < nextId && nodes[i].key in index && index[nodes[i].key] == nodes[i].id) &&
    (forall k :: k in index ==> k in KeysIn(nodes))
  }

  /** The index leads to the node of its key, and dropping that node cuts one position out of the list. */
  lemma DropByIndex<K(!new), P>(nodes: seq<Node<K, P>>, index: map<K, nat>, nextId: nat, k: K) returns (p: nat)
    requires Linked(nodes, index, nextId) && k in index
    ensures p < |nodes| && nodes[p].id == index[k] && nodes[p].key == k
    ensures DropNode(nodes, index[k]) == nodes[..p] + nodes[p + 1..]
    ensures PositionOf(nodes, index[k]) == p
  {
    p :| 0 <= p < |nodes| && KeysIn(nodes)[p] == k;
    forall i | 0 <= i < p
      ensures nodes[i].id != nodes[p].id
    {
      assert IdsIn(nodes)[i] != IdsIn(nodes)[p];
    }
    DropNodeAt(nodes, p);
    PositionOfNode(nodes, p);
  }

  lemma DropKeepsLinked<K(!new), P>(nodes: seq<Node<K, P>>, index: map<K, nat>, nextId: nat, k: K)
    requires Linked(nodes, index, nextId) && k in index
    ensures var rest := DropNode(nodes, index[k]);
            KeysIn(rest) == Without(KeysIn(nodes), k) && Linked(rest, index - {k}, nextId) &&
            index[k] < nextId && index[k] !in IdsIn(rest)
  {
    hide NoDuplicates, Indexed, DropNode, PositionOf;
    var p := DropByIndex(nodes, index, nextId, k);
    var keys, ids, rest := KeysIn(nodes), IdsIn(nodes), nodes[..p] + nodes[p + 1..];
    CutKeysAndIds(nodes, p);
    WithoutAt(keys, p);
    CutNoDuplicates(keys, p);
    CutNoDuplicates(ids, p);
    assert index[k] < nextId by { IndexedId(nodes, index, nextId, p); }
    DropKeepsIndexed(nodes, p, index, nextId);
    DroppedIdIsGone(nodes, p);
  }

  lemma IndexedId<K(!new), P>(nodes: seq<Node<K, P>>, index: map<K, nat>, nextId: nat, p: nat)
    requires Indexed(nodes, index, nextId) && p < |nodes|
    ensures nodes[p].id < nextId
  {
  }

  lemma CutKeysAndIds<K, P>(nodes: seq<Node<K, P>>, p: nat)
    requires p < |nodes|
    ensures KeysIn(nodes[..p] + nodes[p + 1..]) == KeysIn(nodes)[..p] + KeysIn(nodes)[p + 1..]
    ensures IdsIn(nodes[..p] + nodes[p + 1..]) == IdsIn(nodes)[..p] + IdsIn(nodes)[p + 1..]
  {
  }

  lemma DroppedIdIsGone<K, P>(nodes: seq<Node<K, P>>, p: nat)
    requires p < |nodes| && NoDuplicates(IdsIn(nodes))
    ensures nodes[p].id !in IdsIn(nodes[..p] + nodes[p + 1..])
  {
    var rest, ids := nodes[..p] + nodes[p + 1..], IdsIn(nodes);
    forall i | 0 <= i < |rest|
      ensures rest[i].id != ids[p]
    {
      assert rest[i].id == ids[if i < p then i else i + 1];
    }
  }

  lemma DropKeepsIndexed<K(!new), P>(nodes: seq<Node<K, P>>, p: nat, index: map<K, nat>, nextId: nat)
    requires Indexed(nodes, index, nextId) && p < |nodes|
    requires var rest := KeysIn(nodes[..p] + nodes[p + 1..]);
             forall x :: x in rest <==> x in KeysIn(nodes) && x != nodes[p].key
    ensures Indexed(nodes[..p] + nodes[p + 1..], index - {nodes[p].key}, nextId)
  {
    var rest := nodes[..p] + nodes[p + 1..];
    forall i | 0 <= i < |rest|
      ensures rest[i] == nodes[if i < p then i else i + 1] && rest[i].key != nodes[p].key
    {
      assert KeysIn(rest)[i] in KeysIn(rest);
    }
  }

  function InsertAt<T>(s: seq<T>, q: nat, x: T): (r: seq<T>)
    requires q <= |s|
    ensures |r| == |s| + 1
    ensures forall i :: 0 <= i < |r| ==> r[i] == if i < q then s[i] else if i == q then x else s[i - 1]
  {
    s[..q] + [x] + s[q..]
  }

  lemma InsertNoDuplicates<T(!new)>(s: seq<T>, q: nat, x: T)
    requires q <= |s| && NoDuplicates(s) && x !in s
    ensures NoDuplicates(InsertAt(s, q, x))
    ensures forall y :: y in InsertAt(s, q, x) <==> y in s || y == x
  {
    var r := InsertAt(s, q, x);
    forall y | y in s
      ensures y in r
    {
      var j :| 0 <= j < |s| && s[j] == y;
      assert r[if j < q then j else j + 1] == y;
    }
    assert r[q] == x;
  }

  lemma InsertKeepsLinked<K(!new), P>(
    nodes: seq<Node<K, P>>, index: map<K, nat>, nextId: nat, q: nat, n: Node<K, P>)
    requires Linked(nodes, index, nextId) && q <= |nodes|
    requires n.key !in index && n.id < nextId && n.id !in IdsIn(nodes)
    ensures Linked(InsertAt(nodes, q, n), index[n.key := n.id], nextId)
    ensures KeysIn(InsertAt(nodes, q, n)) == InsertAt(KeysIn(nodes), q, n.key)
  {
    hide NoDuplicates;
    var longer := InsertAt(nodes, q, n);
    assert n.key !in KeysIn(nodes);
    assert KeysIn(longer) == InsertAt(KeysIn(nodes), q, n.key);
    assert IdsIn(longer) == InsertAt(IdsIn(nodes), q, n.id);
    InsertNoDuplicates(KeysIn(nodes), q, n.key);
    InsertNoDuplicates(IdsIn(nodes), q, n.id);
  }

  lemma IndexHasKey<K(!new), P>(nodes: seq<Node<K, P>>, index: map<K, nat>, nextId: nat, k: K)
    requires Linked(nodes, index, nextId)
    ensures k in index <==> k in KeysIn(nodes)
  {
  }

  lemma PushedKeys<K, P>(nodes: seq<Node<K, P>>, n: Node<K, P>)
    ensures KeysIn(InsertAt(nodes, 0, n)) == [n.key] + KeysIn(nodes)
  {
  }

  /** A key that is pushed although it is listed breaks the bijection. */
  lemma ListedTwice<K(!new), P>(nodes: seq<Node<K, P>>, index: map<K, nat>, nextId: nat, n: Node<K, P>)
    requires n.key in KeysIn(nodes)
    ensures !Linked(InsertAt(nodes, 0, n), index, nextId)
  {
    PushedKeys(nodes, n);
    var keys := KeysIn(InsertAt(nodes, 0, n));
    var i :| 0 <= i < |nodes| && KeysIn(nodes)[i] == n.key;
    assert keys[0] == keys[i + 1];
  }

  /** list::splice moves a node to the front; the index still leads to it. */
  lemma MoveKeepsLinked<K(!new), P>(nodes: seq<Node<K, P>>, index: map<K, nat>, nextId: nat, k: K, tag: P)
    requires Linked(nodes, index, nextId) && k in index
    ensures var moved := InsertAt(DropNode(nodes, index[k]), 0, Node(index[k], k, tag));
            Linked(moved, index, nextId) && KeysIn(moved) == InsertAt(Without(KeysIn(nodes), k), 0, k)
  {
    hide NoDuplicates, Indexed, DropNode;
    DropKeepsLinked(nodes, index, nextId, k);
    InsertKeepsLinked(DropNode(nodes, index[k]), index - {k}, nextId, 0, Node(index[k], k, tag));
    assert index == (index - {k})[k := index[k]];
  }

  function Elements<K(==)>(s: seq<K>): set<K> {
    set k | k in s
  }

  lemma {:induction false} DistinctCount<K(!new)>(s: seq<K>)
    requires NoDuplicates(s)
    ensures |Elements(s)| == |s|
  {
    if s == [] {
    } else {
      DistinctCount(s[1..]);
      assert Elements(s) == {s[0]} + Elements(s[1..]);
    }
  }

  lemma IndexCount<K(!new), P>(nodes: seq<Node<K, P>>, index: map<K, nat>, nextId: nat)
    requires Linked(nodes, index, nextId)
    ensures |index| == |nodes|
  {
    DistinctCount(KeysIn(nodes));
    assert index.Keys == Elements(KeysIn(nodes));
  }
}
