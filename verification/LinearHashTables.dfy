/** Linear hashing: shared/include/Poco/LinearHashTable.h. */
module LinearHashTables {
  import opened Collections

  // ----- addresses ---------------------------------------------------------------------------

  function Pow2(k: nat): (n: nat)
    ensures n >= 1
  {
    if k == 0 then 1 else 2 * Pow2(k - 1)
  }

  ghost predicate PowerOfTwo(n: nat) {
    exists k: nat :: Pow2(k) == n
  }

  lemma Doubles(n: nat)
    requires PowerOfTwo(n)
    ensures PowerOfTwo(2 * n)
  {
    var k: nat :| Pow2(k) == n;
    assert Pow2(k + 1) == 2 * n;
  }

  lemma Halves(n: nat)
    requires PowerOfTwo(n) && n != 1
    ensures n / 2 > 0 && PowerOfTwo(n / 2) && n == 2 * (n / 2)
  {
    var k: nat :| Pow2(k) == n;
    assert Pow2(k - 1) == n / 2;
  }

  /** h % m, by repeated subtraction. */
  function Residue(h: nat, m: nat): (r: nat)
    requires m > 0
    ensures r < m
  {
    if h < m then h else Residue(h - m, m)
  }

  lemma {:induction false} ResidueIsModulus(h: nat, m: nat)
    requires m > 0
    ensures Residue(h, m) == h % m
  {
    if h < m {
    } else {
      ResidueIsModulus(h - m, m);
      assert h % m == (h - m) % m by { ModulusStep(h - m, m); }
    }
  }

  lemma ModulusStep(h: nat, m: nat)
    requires m > 0
    ensures (h + m) % m == h % m
  {
    var q, r, q', r' := h / m, h % m, (h + m) / m, (h + m) % m;
    assert h == q * m + r && h + m == q' * m + r';
    var d := q' - (q + 1);
    assert d * m == r - r' by {
      assert d * m == q' * m - (q + 1) * m;
      assert (q + 1) * m == q * m + m;
    }
    if d >= 1 {
      MultipleAtLeast(d, m);
    } else if d <= -1 {
      MultipleAtLeast(-d, m);
    }
  }

  lemma MultipleAtLeast(d: int, m: int)
    requires d >= 1 && m >= 0
    ensures d * m >= m
  {
    assert d * m == (d - 1) * m + m;
  }

  /** Doubling the modulus keeps the residue or adds the old modulus to it. */
  lemma {:induction false} ResidueOfDouble(h: nat, m: nat)
    requires m > 0
    ensures Residue(h, 2 * m) == Residue(h, m) || Residue(h, 2 * m) == Residue(h, m) + m
  {
    if h < 2 * m {
    } else {
      ResidueOfDouble(h - 2 * m, m);
      assert Residue(h - m, m) == Residue(h - m - m, m);
    }
  }

  /** The bucket a hash belongs to when buckets below the split pointer have been split. */
  function Address(hash: nat, front: nat, split: nat): nat
    requires front > 0
  {
    if Residue(hash, front) >= split then Residue(hash, front) else Residue(hash, 2 * front)
  }

  lemma AddressInRange(hash: nat, front: nat, split: nat)
    requires front > 0 && split <= front
    ensures Address(hash, front, split) < front + split
  {
    ResidueOfDouble(hash, front);
  }

  /** A full round of splits and the doubled table name the same buckets. */
  lemma AddressAfterDoubling(hash: nat, front: nat)
    requires front > 0
    ensures Address(hash, front, front) == Address(hash, 2 * front, 0)
  {
  }

  /** Advancing the split pointer moves values out of the split bucket only, and only to the new one. */
  lemma AddressAfterSplit(hash: nat, front: nat, split: nat)
    requires front > 0 && split < front
    ensures var a, b := Address(hash, front, split), Address(hash, front, split + 1);
            (a != split ==> b == a) && (a == split ==> b == split || b == front + split)
  {
    ResidueOfDouble(hash, front);
  }

  /** Retreating it moves values out of the last bucket only, and back to the bucket they were split from. */
  lemma AddressAfterMerge(hash: nat, front: nat, split: nat)
    requires front > 0 && split < front
    ensures var a, b := Address(hash, front, split + 1), Address(hash, front, split);
            (a != front + split ==> b == a) && (a == front + split ==> b == split)
  {
    ResidueOfDouble(hash, front);
  }

  // ----- buckets -----------------------------------------------------------------------------

  /** The values of the first n buckets, in iteration order. */
  ghost function FlattenUpTo<T>(buckets: seq<seq<T>>, n: nat): seq<T>
    requires n <= |buckets|
  {
    if n == 0 then [] else FlattenUpTo(buckets, n - 1) + buckets[n - 1]
  }

  /** All stored values in iteration order. */
  ghost function Flatten<T>(buckets: seq<seq<T>>): seq<T> {
    FlattenUpTo(buckets, |buckets|)
  }

  /** The stored values, however they are spread over the buckets. */
  ghost function Bag<T>(buckets: seq<seq<T>>): multiset<T> {
    multiset(Flatten(buckets))
  }

  lemma {:induction false} FlattenFrame<T>(a: seq<seq<T>>, b: seq<seq<T>>, n: nat)
    requires n <= |a| && n <= |b| && forall i :: 0 <= i < n ==> a[i] == b[i]
    ensures FlattenUpTo(a, n) == FlattenUpTo(b, n)
  {
    if n == 0 {
    } else {
      FlattenFrame(a, b, n - 1);
    }
  }

  lemma {:induction false} FlattenUpdate<T>(buckets: seq<seq<T>>, i: nat, bucket: seq<T>, n: nat)
    requires i < n <= |buckets|
    ensures multiset(FlattenUpTo(buckets[i := bucket], n)) + multiset(buckets[i])
         == multiset(FlattenUpTo(buckets, n)) + multiset(bucket)
  {
    var updated := buckets[i := bucket];
    if n == i + 1 {
      FlattenFrame(updated, buckets, i);
    } else {
      FlattenUpdate(buckets, i, bucket, n - 1);
      BagShift(multiset(FlattenUpTo(updated, n - 1)), multiset(FlattenUpTo(buckets, n - 1)),
        multiset(buckets[i]), multiset(bucket), multiset(buckets[n - 1]));
    }
  }

  lemma BagShift<T>(a: multiset<T>, b: multiset<T>, p: multiset<T>, q: multiset<T>, c: multiset<T>)
    requires a + p == b + q
    ensures a + c + p == b + c + q
  {
    assert a + c + p == (a + p) + c;
    assert b + c + q == (b + q) + c;
  }

  lemma BagUpdate<T>(buckets: seq<seq<T>>, i: nat, bucket: seq<T>)
    requires i < |buckets|
    ensures Bag(buckets[i := bucket]) + multiset(buckets[i]) == Bag(buckets) + multiset(bucket)
  {
    FlattenUpdate(buckets, i, bucket, |buckets|);
  }

  lemma BagCancel<T>(a: multiset<T>, b: multiset<T>, c: multiset<T>)
    requires a + c == b + c
    ensures a == b
  {
    assert a == (a + c) - c;
    assert b == (b + c) - c;
  }

  lemma BagPush<T>(buckets: seq<seq<T>>, i: nat, x: T)
    requires i < |buckets|
    ensures Bag(buckets[i := buckets[i] + [x]]) == Bag(buckets) + multiset{x}
  {
    BagUpdate(buckets, i, buckets[i] + [x]);
    BagCancel(Bag(buckets[i := buckets[i] + [x]]), Bag(buckets) + multiset{x}, multiset(buckets[i]));
  }

  lemma FlattenLast<T>(buckets: seq<seq<T>>, bucket: seq<T>)
    ensures Flatten(buckets + [bucket]) == Flatten(buckets) + bucket
  {
    FlattenFrame(buckets + [bucket], buckets, |buckets|);
  }

  lemma {:induction false} FlattenPrefix<T>(buckets: seq<seq<T>>, m: nat, n: nat)
    requires m <= n <= |buckets|
    ensures FlattenUpTo(buckets, m) <= FlattenUpTo(buckets, n)
  {
    if m == n {
    } else {
      FlattenPrefix(buckets, m, n - 1);
    }
  }

  lemma {:induction false} FlattenMember<T>(buckets: seq<seq<T>>, x: T, n: nat)
    requires n <= |buckets|
    ensures x in FlattenUpTo(buckets, n) <==> exists i :: 0 <= i < n && x in buckets[i]
  {
    if n == 0 {
    } else {
      FlattenMember(buckets, x, n - 1);
    }
  }

  /** Every value lies in the bucket its address function names. */
  ghost predicate Placed<T, K(!new)>(
    buckets: seq<seq<T>>, front: nat, split: nat, keyOf: T -> K, hashOf: K -> nat)
    requires front > 0
  {
    forall i, j :: 0 <= i < |buckets| && 0 <= j < |buckets[i]| ==>
      Address(hashOf(keyOf(buckets[i][j])), front, split) == i
  }

  /** No two stored values are equal: each occurs once and no two share a key. */
  ghost predicate DistinctKeys<T(!new), K(!new)>(bag: multiset<T>, keyOf: T -> K) {
    (forall x :: bag[x] <= 1) &&
    (forall x, y :: x in bag && y in bag && keyOf(x) == keyOf(y) ==> x == y)
  }

  ghost predicate HasKey<T(!new), K(!new)>(bag: multiset<T>, keyOf: T -> K, k: K) {
    exists x :: x in bag && keyOf(x) == k
  }

  lemma DistinctInsert<T(!new), K(!new)>(bag: multiset<T>, keyOf: T -> K, v: T)
    requires DistinctKeys(bag, keyOf) && !HasKey(bag, keyOf, keyOf(v))
    ensures DistinctKeys(bag + multiset{v}, keyOf)
  {
    assert v !in bag;
  }

  /** A key whose bucket does not hold it is nowhere in the table. */
  lemma AbsentFromTable<T(!new), K(!new)>(
    buckets: seq<seq<T>>, front: nat, split: nat, keyOf: T -> K, hashOf: K -> nat, k: K)
    requires front > 0 && split <= front && |buckets| == front + split
    requires Placed(buckets, front, split, keyOf, hashOf)
    requires var a := Address(hashOf(k), front, split);
             a < |buckets| ==> forall j :: 0 <= j < |buckets[a]| ==> keyOf(buckets[a][j]) != k
    ensures !HasKey(Bag(buckets), keyOf, k)
  {
    forall x | x in Bag(buckets)
      ensures keyOf(x) != k
    {
      FlattenMember(buckets, x, |buckets|);
      var i :| 0 <= i < |buckets| && x in buckets[i];
      var j :| 0 <= j < |buckets[i]| && buckets[i][j] == x;
      assert Address(hashOf(keyOf(buckets[i][j])), front, split) == i;
    }
  }

  ghost function KeysOf<T(!new), K(!new)>(bag: multiset<T>, keyOf: T -> K): set<K> {
    set x | x in bag :: keyOf(x)
  }

  ghost function Chosen<T(!new), K(!new)>(bag: multiset<T>, keyOf: T -> K, k: K): (x: T)
    requires HasKey(bag, keyOf, k)
    ensures x in bag && keyOf(x) == k
  {
    var x :| x in bag && keyOf(x) == k; x
  }

  /** The mathematical table: each stored key with its value. */
  ghost function Model<T(!new), K(!new)>(bag: multiset<T>, keyOf: T -> K): (m: map<K, T>)
    requires DistinctKeys(bag, keyOf)
  {
    map k | k in KeysOf(bag, keyOf) :: Chosen(bag, keyOf, k)
  }

  lemma ModelHolds<T(!new), K(!new)>(bag: multiset<T>, keyOf: T -> K)
    requires DistinctKeys(bag, keyOf)
    ensures var m := Model(bag, keyOf);
            (forall x :: x in bag <==> keyOf(x) in m && m[keyOf(x)] == x) &&
            (forall k :: k in m ==> m[k] in bag && keyOf(m[k]) == k)
  {
  }

  lemma ModelInsert<T(!new), K(!new)>(bag: multiset<T>, keyOf: T -> K, v: T)
    requires DistinctKeys(bag, keyOf) && !HasKey(bag, keyOf, keyOf(v))
    ensures DistinctKeys(bag + multiset{v}, keyOf)
    ensures Model(bag + multiset{v}, keyOf) == Model(bag, keyOf)[keyOf(v) := v]
  {
    DistinctInsert(bag, keyOf, v);
    ModelHolds(bag, keyOf);
    ModelHolds(bag + multiset{v}, keyOf);
    var m, m' := Model(bag, keyOf), Model(bag + multiset{v}, keyOf);
    forall k | k in m
      ensures k in m' && m'[k] == (if k == keyOf(v) then v else m[k])
    {
      assert m[k] in bag + multiset{v};
    }
    assert v in bag + multiset{v};
    forall k | k in m'
      ensures k in m || k == keyOf(v)
    {
      assert m'[k] in bag || m'[k] == v;
    }
  }

  /** The shape every operation keeps, also between the two halves of an insert or erase. */
  ghost predicate Shape<T, K(!new)>(
    buckets: seq<seq<T>>, front: nat, split: nat, keyOf: T -> K, hashOf: K -> nat)
  {
    PowerOfTwo(front) && front > 0 && split <= front && |buckets| == front + split &&
    Placed(buckets, front, split, keyOf, hashOf)
  }

  /** The invariant of a table. */
  ghost predicate Consistent<T(!new), K(!new)>(
    buckets: seq<seq<T>>, front: nat, split: nat, size: nat, keyOf: T -> K, hashOf: K -> nat)
  {
    Shape(buckets, front, split, keyOf, hashOf) &&
    |buckets| == size + 1 && |Bag(buckets)| == size && DistinctKeys(Bag(buckets), keyOf)
  }

  // ----- one step on the buckets -------------------------------------------------------------

  lemma PushKeepsShape<T, K(!new)>(
    buckets: seq<seq<T>>, front: nat, split: nat, keyOf: T -> K, hashOf: K -> nat, x: T)
    requires Shape(buckets, front, split, keyOf, hashOf)
    ensures var a := Address(hashOf(keyOf(x)), front, split);
            a < |buckets| &&
            Shape(buckets[a := buckets[a] + [x]], front, split, keyOf, hashOf) &&
            Bag(buckets[a := buckets[a] + [x]]) == Bag(buckets) + multiset{x}
  {
    AddressInRange(hashOf(keyOf(x)), front, split);
    BagPush(buckets, Address(hashOf(keyOf(x)), front, split), x);
  }

  /** The second half of an insert. */
  lemma StoreNew<T(!new), K(!new)>(
    buckets: seq<seq<T>>, front: nat, split: nat, size: nat, keyOf: T -> K, hashOf: K -> nat, x: T)
    requires Shape(buckets, front, split, keyOf, hashOf) && |buckets| == size + 2 && |Bag(buckets)| == size
    requires DistinctKeys(Bag(buckets), keyOf) && !HasKey(Bag(buckets), keyOf, keyOf(x))
    ensures var a := Address(hashOf(keyOf(x)), front, split);
            a < |buckets| &&
            var after := buckets[a := buckets[a] + [x]];
            Consistent(after, front, split, size + 1, keyOf, hashOf) &&
            Model(Bag(after), keyOf) == Model(Bag(buckets), keyOf)[keyOf(x) := x]
  {
    PushKeepsShape(buckets, front, split, keyOf, hashOf, x);
    ModelInsert(Bag(buckets), keyOf, x);
  }

  lemma DetachForSplit<T, K(!new)>(
    buckets: seq<seq<T>>, front: nat, split: nat, keyOf: T -> K, hashOf: K -> nat)
    requires split < front && |buckets| == front + split
    requires Placed(buckets, front, split, keyOf, hashOf)
    ensures var after := (buckets + [[]])[split := []];
            Placed(after, front, split + 1, keyOf, hashOf) &&
            Bag(after) + multiset(buckets[split]) == Bag(buckets)
  {
    var after := (buckets + [[]])[split := []];
    forall i, j | 0 <= i < |after| && 0 <= j < |after[i]|
      ensures Address(hashOf(keyOf(after[i][j])), front, split + 1) == i
    {
      assert after[i][j] == buckets[i][j];
      AddressAfterSplit(hashOf(keyOf(buckets[i][j])), front, split);
    }
    FlattenLast(buckets, []);
    assert Flatten(buckets + [[]]) == Flatten(buckets);
    BagUpdate(buckets + [[]], split, []);
  }

  lemma DetachForMerge<T, K(!new)>(
    buckets: seq<seq<T>>, front: nat, split: nat, keyOf: T -> K, hashOf: K -> nat)
    requires split < front && |buckets| == front + split + 1
    requires Placed(buckets, front, split + 1, keyOf, hashOf)
    ensures var after := buckets[..front + split];
            Placed(after, front, split, keyOf, hashOf) &&
            Bag(after) + multiset(buckets[front + split]) == Bag(buckets)
  {
    var after, last := buckets[..front + split], buckets[front + split];
    forall i, j | 0 <= i < |after| && 0 <= j < |after[i]|
      ensures Address(hashOf(keyOf(after[i][j])), front, split) == i
    {
      assert after[i][j] == buckets[i][j];
      AddressAfterMerge(hashOf(keyOf(buckets[i][j])), front, split);
    }
    assert buckets == after + [last];
    FlattenLast(after, last);
  }

  lemma PlacedAfterDoubling<T, K(!new)>(
    buckets: seq<seq<T>>, front: nat, keyOf: T -> K, hashOf: K -> nat)
    requires front > 0
    ensures Placed(buckets, front, front, keyOf, hashOf) <==> Placed(buckets, 2 * front, 0, keyOf, hashOf)
  {
    forall i, j | 0 <= i < |buckets| && 0 <= j < |buckets[i]|
      ensures Address(hashOf(keyOf(buckets[i][j])), front, front)
           == Address(hashOf(keyOf(buckets[i][j])), 2 * front, 0)
    {
      AddressAfterDoubling(hashOf(keyOf(buckets[i][j])), front);
    }
  }

  /** What merge makes of the pointers: a table at the start of a round is one at the end of the round
      before, with half the front. */
  lemma MergeShape<T, K(!new)>(
    buckets: seq<seq<T>>, front: nat, split: nat, keyOf: T -> K, hashOf: K -> nat)
    requires Shape(buckets, front, split, keyOf, hashOf) && |buckets| >= 2
    ensures var f, s := if split == 0 then front / 2 else front, if split == 0 then front / 2 else split;
            0 < s <= f && |buckets| == f + s && PowerOfTwo(f) && Placed(buckets, f, s, keyOf, hashOf)
  {
    hide Placed, PowerOfTwo;
    if split == 0 {
      Halves(front);
      PlacedAfterDoubling(buckets, front / 2, keyOf, hashOf);
    }
  }

  function RemoveSlot<T>(bucket: seq<T>, slot: nat): seq<T>
    requires slot < |bucket|
  {
    bucket[..slot] + bucket[slot + 1..]
  }

  lemma RemoveSlotBag<T>(buckets: seq<seq<T>>, b: nat, s: nat)
    requires b < |buckets| && s < |buckets[b]|
    ensures Bag(buckets[b := RemoveSlot(buckets[b], s)]) + multiset{buckets[b][s]} == Bag(buckets)
    ensures buckets[b][s] in Bag(buckets)
  {
    var rest, x := RemoveSlot(buckets[b], s), buckets[b][s];
    assert buckets[b] == buckets[b][..s] + [x] + buckets[b][s + 1..];
    BagUpdate(buckets, b, rest);
    BagCancel(Bag(buckets[b := rest]) + multiset{x}, Bag(buckets), multiset(rest));
  }

  /** The first half of an erase. */
  lemma RemoveStored<T(!new), K(!new)>(
    buckets: seq<seq<T>>, front: nat, split: nat, size: nat, keyOf: T -> K, hashOf: K -> nat, b: nat, s: nat)
    requires Consistent(buckets, front, split, size, keyOf, hashOf)
    requires b < |buckets| && s < |buckets[b]|
    ensures var after := buckets[b := RemoveSlot(buckets[b], s)];
            Shape(after, front, split, keyOf, hashOf) && |Bag(after)| == size - 1 &&
            DistinctKeys(Bag(after), keyOf) &&
            Model(Bag(after), keyOf) == Model(Bag(buckets), keyOf) - {keyOf(buckets[b][s])}
  {
    RemoveSlotPlaced(buckets, front, split, keyOf, hashOf, b, s);
    RemoveSlotBag(buckets, b, s);
    ModelRemove(Bag(buckets[b := RemoveSlot(buckets[b], s)]), keyOf, buckets[b][s]);
  }

  lemma RemoveSlotPlaced<T, K(!new)>(
    buckets: seq<seq<T>>, front: nat, split: nat, keyOf: T -> K, hashOf: K -> nat, b: nat, s: nat)
    requires front > 0 && Placed(buckets, front, split, keyOf, hashOf)
    requires b < |buckets| && s < |buckets[b]|
    ensures Placed(buckets[b := RemoveSlot(buckets[b], s)], front, split, keyOf, hashOf)
  {
    var after := buckets[b := RemoveSlot(buckets[b], s)];
    forall i, j | 0 <= i < |after| && 0 <= j < |after[i]|
      ensures Address(hashOf(keyOf(after[i][j])), front, split) == i
    {
      assert after[i][j] == buckets[i][if i == b && j >= s then j + 1 else j];
    }
  }

  lemma AssignBag<T>(buckets: seq<seq<T>>, b: nat, s: nat, x: T)
    requires b < |buckets| && s < |buckets[b]|
    ensures buckets[b][s] in Bag(buckets)
    ensures Bag(buckets[b := buckets[b][s := x]]) == Bag(buckets) - multiset{buckets[b][s]} + multiset{x}
  {
    var bucket, was := buckets[b][s := x], buckets[b][s];
    RemoveSlotBag(buckets, b, s);
    BagUpdate(buckets, b, bucket);
    assert multiset(bucket) == multiset(buckets[b]) - multiset{was} + multiset{x};
    BagExchange(Bag(buckets[b := bucket]), Bag(buckets), multiset(buckets[b]), was, x);
  }

  lemma BagExchange<T>(a: multiset<T>, b: multiset<T>, c: multiset<T>, was: T, x: T)
    requires was in b && was in c && a + c == b + (c - multiset{was} + multiset{x})
    ensures a == b - multiset{was} + multiset{x}
  {
    BagCancel(a, b - multiset{was} + multiset{x}, c);
  }

  /** Reassigning the value of a key that a bag with distinct keys holds. */
  lemma ModelAssign<T(!new), K(!new)>(bag: multiset<T>, keyOf: T -> K, was: T, v: T)
    requires DistinctKeys(bag, keyOf) && was in bag && keyOf(v) == keyOf(was)
    ensures DistinctKeys(bag - multiset{was} + multiset{v}, keyOf)
    ensures Model(bag - multiset{was} + multiset{v}, keyOf) == Model(bag, keyOf)[keyOf(v) := v]
  {
    var rest := bag - multiset{was};
    assert bag == rest + multiset{was};
    ModelReplace(rest, keyOf, was, v);
  }

  lemma ModelReplace<T(!new), K(!new)>(rest: multiset<T>, keyOf: T -> K, was: T, v: T)
    requires DistinctKeys(rest + multiset{was}, keyOf) && keyOf(v) == keyOf(was)
    ensures DistinctKeys(rest + multiset{v}, keyOf)
    ensures Model(rest + multiset{v}, keyOf) == Model(rest + multiset{was}, keyOf)[keyOf(v) := v]
  {
    ModelRemove(rest, keyOf, was);
    ModelInsert(rest, keyOf, v);
    var m, k := Model(rest, keyOf), keyOf(v);
    assert m[k := was][k := v] == m[k := v];
  }

  /** Removing one value from a bag with distinct keys removes that key from the table. */
  lemma ModelRemove<T(!new), K(!new)>(bag: multiset<T>, keyOf: T -> K, v: T)
    requires DistinctKeys(bag + multiset{v}, keyOf)
    ensures DistinctKeys(bag, keyOf) && !HasKey(bag, keyOf, keyOf(v))
    ensures Model(bag, keyOf) == Model(bag + multiset{v}, keyOf) - {keyOf(v)}
    ensures Model(bag + multiset{v}, keyOf) == Model(bag, keyOf)[keyOf(v) := v]
  {
    assert (bag + multiset{v})[v] == bag[v] + 1;
    assert forall x :: x in bag ==> x in bag + multiset{v};
    assert v in bag + multiset{v};
    ModelInsert(bag, keyOf, v);
    ModelHolds(bag, keyOf);
  }

  lemma AssignStored<T(!new), K(!new)>(
    buckets: seq<seq<T>>, front: nat, split: nat, size: nat, keyOf: T -> K, hashOf: K -> nat,
    b: nat, s: nat, x: T)
    requires Consistent(buckets, front, split, size, keyOf, hashOf)
    requires b < |buckets| && s < |buckets[b]| && keyOf(x) == keyOf(buckets[b][s])
    ensures var after := buckets[b := buckets[b][s := x]];
            Consistent(after, front, split, size, keyOf, hashOf) &&
            Model(Bag(after), keyOf) == Model(Bag(buckets), keyOf)[keyOf(x) := x]
  {
    hide Placed, Bag, DistinctKeys, PowerOfTwo, Model;
    AssignBag(buckets, b, s, x);
    ModelAssign(Bag(buckets), keyOf, buckets[b][s], x);
    AssignPlacedIff(buckets, front, split, keyOf, hashOf, b, s, x);
    assert Address(hashOf(keyOf(buckets[b][s])), front, split) == b by { PlacedAt(buckets, front, split, keyOf, hashOf, b, s); }
  }

  lemma PlacedAt<T, K(!new)>(
    buckets: seq<seq<T>>, front: nat, split: nat, keyOf: T -> K, hashOf: K -> nat, b: nat, s: nat)
    requires front > 0 && Placed(buckets, front, split, keyOf, hashOf) && b < |buckets| && s < |buckets[b]|
    ensures Address(hashOf(keyOf(buckets[b][s])), front, split) == b
  {
  }

  /** A value may be written over a stored one when its key belongs into the same bucket and no other stored
      value has that key. */
  ghost predicate Fits<T(!new), K(!new)>(
    buckets: seq<seq<T>>, front: nat, split: nat, keyOf: T -> K, hashOf: K -> nat, b: nat, s: nat, x: T)
    requires front > 0 && b < |buckets| && s < |buckets[b]|
  {
    Address(hashOf(keyOf(x)), front, split) == b &&
    !HasKey(Bag(buckets) - multiset{buckets[b][s]}, keyOf, keyOf(x))
  }

  /** Writing through an iterator keeps the invariant exactly when the value fits. */
  lemma AssignKeepsConsistentIff<T(!new), K(!new)>(
    buckets: seq<seq<T>>, front: nat, split: nat, size: nat, keyOf: T -> K, hashOf: K -> nat,
    b: nat, s: nat, x: T)
    requires Consistent(buckets, front, split, size, keyOf, hashOf)
    requires b < |buckets| && s < |buckets[b]|
    ensures Consistent(buckets[b := buckets[b][s := x]], front, split, size, keyOf, hashOf)
        <==> Fits(buckets, front, split, keyOf, hashOf, b, s, x)
  {
    hide Placed, Bag, DistinctKeys, HasKey, PowerOfTwo;
    var was := buckets[b][s];
    AssignBag(buckets, b, s, x);
    AssignPlacedIff(buckets, front, split, keyOf, hashOf, b, s, x);
    AssignDistinctIff(Bag(buckets), keyOf, was, x);
  }

  lemma AssignPlacedIff<T, K(!new)>(
    buckets: seq<seq<T>>, front: nat, split: nat, keyOf: T -> K, hashOf: K -> nat, b: nat, s: nat, x: T)
    requires front > 0 && Placed(buckets, front, split, keyOf, hashOf) && b < |buckets| && s < |buckets[b]|
    ensures Placed(buckets[b := buckets[b][s := x]], front, split, keyOf, hashOf)
        <==> Address(hashOf(keyOf(x)), front, split) == b
  {
    hide Address;
    var after := buckets[b := buckets[b][s := x]];
    assert after[b][s] == x;
    assert forall i, j :: 0 <= i < |after| && 0 <= j < |after[i]| && (i != b || j != s) ==> after[i][j] == buckets[i][j];
  }

  lemma AssignDistinctIff<T(!new), K(!new)>(bag: multiset<T>, keyOf: T -> K, was: T, x: T)
    requires DistinctKeys(bag, keyOf) && was in bag
    ensures DistinctKeys(bag - multiset{was} + multiset{x}, keyOf) <==> !HasKey(bag - multiset{was}, keyOf, keyOf(x))
    ensures |bag - multiset{was} + multiset{x}| == |bag|
  {
    hide Model;
    var rest := bag - multiset{was};
    assert bag == rest + multiset{was};
    ModelRemove(rest, keyOf, was);
    if !HasKey(rest, keyOf, keyOf(x)) {
      DistinctInsert(rest, keyOf, x);
    } else if DistinctKeys(rest + multiset{x}, keyOf) {
      ModelRemove(rest, keyOf, x);
    }
  }

  /** Keys and stored values are in bijection, so size() counts keys. */
  lemma {:induction false} ModelSize<T(!new), K(!new)>(bag: multiset<T>, keyOf: T -> K)
    requires DistinctKeys(bag, keyOf)
    ensures |Model(bag, keyOf)| == |bag|
    decreases |bag|
  {
    if bag == multiset{} {
      assert KeysOf(bag, keyOf) == {};
    } else {
      var x :| x in bag;
      var rest := bag - multiset{x};
      assert bag == rest + multiset{x};
      ModelRemove(rest, keyOf, x);
      ModelSize(rest, keyOf);
      ModelHolds(rest, keyOf);
    }
  }

  // ----- iterators ---------------------------------------------------------------------------

  /** An iterator: End, or a bucket and a slot in it. */
  datatype Iterator = End | At(bucket: nat, slot: nat)

  predicate InRange<T>(buckets: seq<seq<T>>, it: Iterator) {
    it.At? ==> it.bucket < |buckets| && it.slot < |buckets[it.bucket]|
  }

  /** How many values come before the iterator in iteration order. */
  ghost function Rank<T>(buckets: seq<seq<T>>, it: Iterator): nat
    requires InRange(buckets, it)
  {
    if it.End? then |Flatten(buckets)| else |FlattenUpTo(buckets, it.bucket)| + it.slot
  }

  lemma RankedValue<T>(buckets: seq<seq<T>>, it: Iterator)
    requires InRange(buckets, it) && it.At?
    ensures Rank(buckets, it) < |Flatten(buckets)|
    ensures Flatten(buckets)[Rank(buckets, it)] == buckets[it.bucket][it.slot]
  {
    FlattenPrefix(buckets, it.bucket + 1, |buckets|);
  }

  /** begin() of the buckets from b on: the first value there, or the end. */
  function FirstFrom<T>(buckets: seq<seq<T>>, b: nat): (it: Iterator)
    requires b <= |buckets|
    ensures InRange(buckets, it)
    ensures Rank(buckets, it) == |FlattenUpTo(buckets, b)|
    decreases |buckets| - b
  {
    if b == |buckets| then End
    else if |buckets[b]| > 0 then At(b, 0)
    else FirstFrom(buckets, b + 1)
  }

  /** Prefix ++. */
  function Successor<T>(buckets: seq<seq<T>>, it: Iterator): (next: Iterator)
    requires InRange(buckets, it)
    ensures InRange(buckets, next)
    ensures Rank(buckets, next) == if it.At? then Rank(buckets, it) + 1 else Rank(buckets, it)
  {
    if it == End then End
    else if it.slot + 1 < |buckets[it.bucket]| then At(it.bucket, it.slot + 1)
    else FirstFrom(buckets, it.bucket + 1)
  }

  /** What the loop from an iterator to end() dereferences. */
  ghost function Visited<T>(buckets: seq<seq<T>>, it: Iterator): seq<T>
    requires InRange(buckets, it)
    decreases |Flatten(buckets)| - Rank(buckets, it)
  {
    if it.End? then []
    else RankedValue(buckets, it); [buckets[it.bucket][it.slot]] + Visited(buckets, Successor(buckets, it))
  }

  lemma {:induction false} VisitedIsRest<T>(buckets: seq<seq<T>>, it: Iterator)
    requires InRange(buckets, it)
    ensures Rank(buckets, it) <= |Flatten(buckets)|
    ensures Visited(buckets, it) == Flatten(buckets)[Rank(buckets, it)..]
    decreases |Flatten(buckets)| - Rank(buckets, it)
  {
    if it.End? {
    } else {
      RankedValue(buckets, it);
      VisitedIsRest(buckets, Successor(buckets, it));
    }
  }

  /** The sequence lists the entries of the map, each once, under their own keys. */
  ghost predicate ListsEachOnce<T, K(!new)>(values: seq<T>, m: map<K, T>, keyOf: T -> K) {
    |values| == |m| &&
    (forall i :: 0 <= i < |values| ==> keyOf(values[i]) in m && m[keyOf(values[i])] == values[i]) &&
    (forall i, j :: 0 <= i < j < |values| ==> keyOf(values[i]) != keyOf(values[j])) &&
    (forall k :: k in m ==> m[k] in values)
  }

  lemma DistinctInOrder<T(!new), K(!new)>(values: seq<T>, keyOf: T -> K, i: nat, j: nat)
    requires DistinctKeys(multiset(values), keyOf) && i < j < |values|
    ensures keyOf(values[i]) != keyOf(values[j])
  {
    var bag := multiset(values);
    assert values[i] in bag && values[j] in bag;
    if values[i] == values[j] {
      OccursTwice(values, i, j);
    }
  }

  lemma BagListsEachOnce<T(!new), K(!new)>(values: seq<T>, keyOf: T -> K)
    requires DistinctKeys(multiset(values), keyOf)
    ensures ListsEachOnce(values, Model(multiset(values), keyOf), keyOf)
  {
    var bag := multiset(values);
    ModelSize(bag, keyOf);
    ModelHolds(bag, keyOf);
    forall i, j | 0 <= i < j < |values|
      ensures keyOf(values[i]) != keyOf(values[j])
    {
      DistinctInOrder(values, keyOf, i, j);
    }
    forall i | 0 <= i < |values|
      ensures values[i] in bag
    {
    }
  }

  /** Iterating from begin() visits every element of the table exactly once and nothing else. */
  lemma IterationVisitsEachOnce<T(!new), K(!new)>(
    buckets: seq<seq<T>>, front: nat, split: nat, size: nat, keyOf: T -> K, hashOf: K -> nat)
    requires Consistent(buckets, front, split, size, keyOf, hashOf)
    ensures var visited := Visited(buckets, FirstFrom(buckets, 0));
            |visited| == size && ListsEachOnce(visited, Model(Bag(buckets), keyOf), keyOf)
  {
    VisitedIsRest(buckets, FirstFrom(buckets, 0));
    assert Flatten(buckets)[0..] == Flatten(buckets);
    BagListsEachOnce(Flatten(buckets), keyOf);
  }

  // ----- the table ---------------------------------------------------------------------------

  /** Values are equal exactly when their keys are, and the hash depends on the key alone: with keyOf the
      identity this is a hash set, with keyOf the first component a HashMap's table. */
  class LinearHashTable<T(!new), K(==, !new)> {
    const keyOf: T -> K
    const hashOf: K -> nat
    var buckets: seq<seq<T>>
    var split: nat
    var front: nat
    var size: nat

    ghost predicate Shaped()
      reads this
    {
      Shape(buckets, front, split, keyOf, hashOf)
    }

    ghost predicate Valid()
      reads this
    {
      Consistent(buckets, front, split, size, keyOf, hashOf)
    }

    ghost function Contents(): map<K, T>
      requires Valid()
      reads this
    {
      Model(Bag(buckets), keyOf)
    }

    constructor (keyOf: T -> K, hashOf: K -> nat)
      ensures Valid() && Contents() == map[]
      ensures this.keyOf == keyOf && this.hashOf == hashOf
    {
      this.keyOf, this.hashOf := keyOf, hashOf;
      assert Pow2(0) == 1;
      buckets := [[]];
      split, front, size := 0, 1, 0;
      new;
    }

    method BucketAddress(key: K) returns (a: nat)
      requires Shaped()
      ensures a == Address(hashOf(key), front, split) && a < |buckets|
    {
      AddressInRange(hashOf(key), front, split);
      var n := hashOf(key);
      ResidueIsModulus(n, front);
      ResidueIsModulus(n, 2 * front);
      if n % front >= split {
        a := n % front;
      } else {
        a := n % (2 * front);
      }
    }

    /** Adds one bucket and redistributes the bucket at the split pointer. */
    method Split()
      requires Shaped()
      modifies this`buckets, this`split, this`front
      ensures Shaped() && Bag(buckets) == old(Bag(buckets))
      ensures |buckets| == old(|buckets|) + 1
    {
      if split == front {
        PlacedAfterDoubling(buckets, front, keyOf, hashOf);
        Doubles(front);
        split := 0;
        front := front * 2;
      }
      DetachForSplit(buckets, front, split, keyOf, hashOf);
      var tmp := buckets[split];
      buckets := (buckets + [[]])[split := []];
      split := split + 1;
      Redistribute(tmp);
    }

    /** Removes the last bucket and returns its values to the bucket they were split from. */
    method Merge()
      requires Shaped() && |buckets| >= 2
      modifies this`buckets, this`split, this`front
      ensures Shaped() && Bag(buckets) == old(Bag(buckets))
      ensures |buckets| == old(|buckets|) - 1
    {
      hide Placed, PowerOfTwo, Bag;
      MergeShape(buckets, front, split, keyOf, hashOf);
      if split == 0 {
        front := front / 2;
        split := front;
      }
      split := split - 1;
      DetachForMerge(buckets, front, split, keyOf, hashOf);
      var tmp := buckets[|buckets| - 1];
      buckets := buckets[..|buckets| - 1];
      Redistribute(tmp);
    }

    /** The loop shared by split and merge. */
    method Redistribute(tmp: seq<T>)
      requires Shaped()
      modifies this`buckets
      ensures Shaped() && Bag(buckets) == old(Bag(buckets)) + multiset(tmp)
      ensures |buckets| == old(|buckets|)
    {
      for i := 0 to |tmp|
        invariant Shaped() && |buckets| == old(|buckets|)
        invariant Bag(buckets) == old(Bag(buckets)) + multiset(tmp[..i])
      {
        PushKeepsShape(buckets, front, split, keyOf, hashOf, tmp[i]);
        assert tmp[..i + 1] == tmp[..i] + [tmp[i]];
        var addr := BucketAddress(keyOf(tmp[i]));
        buckets := buckets[addr := buckets[addr] + [tmp[i]]];
      }
      assert tmp[..|tmp|] == tmp;
    }

    method Find(key: K) returns (it: Iterator)
      requires Valid()
      ensures InRange(buckets, it)
      ensures it.At? <==> key in Contents()
      ensures it.At? ==> buckets[it.bucket][it.slot] == Contents()[key]
      ensures it.At? ==> keyOf(buckets[it.bucket][it.slot]) == key
    {
      var addr := BucketAddress(key);
      var slot := FindInBucket(buckets[addr], key);
      ModelHolds(Bag(buckets), keyOf);
      if slot < |buckets[addr]| {
        it := At(addr, slot);
        FlattenMember(buckets, buckets[addr][slot], |buckets|);
        assert buckets[addr][slot] in Bag(buckets);
      } else {
        it := End;
        AbsentFromTable(buckets, front, split, keyOf, hashOf, key);
      }
    }

    /** std::find over one bucket. */
    method FindInBucket(bucket: seq<T>, key: K) returns (slot: nat)
      ensures slot <= |bucket|
      ensures slot < |bucket| ==> keyOf(bucket[slot]) == key
      ensures forall j :: 0 <= j < slot ==> keyOf(bucket[j]) != key
    {
      slot := 0;
      while slot < |bucket| && keyOf(bucket[slot]) != key
        invariant slot <= |bucket|
        invariant forall j :: 0 <= j < slot ==> keyOf(bucket[j]) != key
      {
        slot := slot + 1;
      }
    }

    method Insert(value: T) returns (it: Iterator, inserted: bool)
      requires Valid()
      modifies this`buckets, this`split, this`front, this`size
      ensures Valid()
      ensures inserted <==> keyOf(value) !in old(Contents())
      ensures Contents() == if inserted then old(Contents())[keyOf(value) := value] else old(Contents())
      ensures it.At? && InRange(buckets, it)
      ensures buckets[it.bucket][it.slot] == Contents()[keyOf(value)]
      ensures keyOf(buckets[it.bucket][it.slot]) == keyOf(value)
    {
      it := Find(keyOf(value));
      inserted := it.End?;
      if inserted {
        it := InsertNew(value);
      }
    }

    method InsertNew(value: T) returns (it: Iterator)
      requires Valid() && keyOf(value) !in Contents()
      modifies this`buckets, this`split, this`front, this`size
      ensures Valid() && Contents() == old(Contents())[keyOf(value) := value]
      ensures it.At? && InRange(buckets, it) && buckets[it.bucket][it.slot] == value
    {
      ModelHolds(Bag(buckets), keyOf);
      Split();
      StoreNew(buckets, front, split, size, keyOf, hashOf, value);
      var addr := BucketAddress(keyOf(value));
      it := At(addr, |buckets[addr]|);
      buckets := buckets[addr := buckets[addr] + [value]];
      size := size + 1;
    }

    /** Erases the element an iterator points to; the end iterator erases nothing. */
    method EraseAt(it: Iterator)
      requires Valid() && InRange(buckets, it)
      modifies this`buckets, this`split, this`front, this`size
      ensures Valid()
      ensures it.End? ==> Contents() == old(Contents())
      ensures it.At? ==> Contents() == old(Contents()) - {keyOf(old(buckets)[it.bucket][it.slot])}
    {
      if it.At? {
        RemoveStored(buckets, front, split, size, keyOf, hashOf, it.bucket, it.slot);
        buckets := buckets[it.bucket := RemoveSlot(buckets[it.bucket], it.slot)];
        size := size - 1;
        Merge();
      }
    }

    method Erase(key: K)
      requires Valid()
      modifies this`buckets, this`split, this`front, this`size
      ensures Valid() && Contents() == old(Contents()) - {key}
    {
      var it := Find(key);
      if it == End {
        assert Contents() - {key} == Contents();
      }
      EraseAt(it);
    }

    method Clear()
      modifies this`buckets, this`split, this`front, this`size
      ensures Valid() && Contents() == map[]
    {
      assert Pow2(0) == 1;
      buckets := [[]];
      split, front, size := 0, 1, 0;
    }

    /** Writes through a non-const iterator, which nobody checks: the table stays valid exactly when the
        value fits, as it does when its key stays. */
    method Assign(it: Iterator, value: T)
      requires Valid() && InRange(buckets, it) && it.At?
      modifies this`buckets
      ensures buckets == old(buckets)[it.bucket := old(buckets)[it.bucket][it.slot := value]]
      ensures Valid() <==> Fits(old(buckets), front, split, keyOf, hashOf, it.bucket, it.slot, value)
      ensures keyOf(value) == keyOf(old(buckets)[it.bucket][it.slot]) ==>
        Valid() && Contents() == old(Contents())[keyOf(value) := value]
    {
      hide Consistent, Fits, Model;
      AssignKeepsConsistentIff(buckets, front, split, size, keyOf, hashOf, it.bucket, it.slot, value);
      if keyOf(value) == keyOf(buckets[it.bucket][it.slot]) {
        AssignStored(buckets, front, split, size, keyOf, hashOf, it.bucket, it.slot, value);
      }
      buckets := buckets[it.bucket := buckets[it.bucket][it.slot := value]];
    }

    method Begin() returns (it: Iterator)
      requires Valid()
      ensures it == FirstFrom(buckets, 0)
    {
      it := SkipEmpty(0);
    }

    /** Prefix ++. */
    method Next(it: Iterator) returns (next: Iterator)
      requires Valid() && InRange(buckets, it)
      ensures next == Successor(buckets, it)
    {
      hide Rank, Flatten, FlattenUpTo, Consistent;
      next := it;
      if it != End {
        next := At(it.bucket, it.slot + 1);
        if next.slot == |buckets[it.bucket]| {
          next := SkipEmpty(it.bucket + 1);
        }
      }
    }

    /** The loop over empty buckets shared by begin and ++. */
    method SkipEmpty(start: nat) returns (it: Iterator)
      requires start <= |buckets|
      ensures it == FirstFrom(buckets, start)
    {
      hide Rank, Flatten, FlattenUpTo;
      var b := start;
      while b < |buckets| && |buckets[b]| == 0
        invariant start <= b <= |buckets|
        invariant FirstFrom(buckets, b) == FirstFrom(buckets, start)
      {
        b := b + 1;
      }
      it := if b == |buckets| then End else At(b, 0);
    }
  }
}
