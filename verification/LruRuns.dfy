/** Least-recently-used replacement on values: what an LRU cache promises over whole runs. */
module LruRuns {
  import opened CacheOperations
  import opened Collections

  /** The cached keys, most recently used first, and their values. */
  datatype State<K, V> = State(order: seq<K>, data: map<K, V>)

  ghost predicate Valid<K(!new), V>(s: State<K, V>) {
    NoDuplicates(s.order) && (forall k :: k in s.data <==> k in s.order)
  }

  function Touch<K(==, !new)>(order: seq<K>, k: K): seq<K> {
    [k] + Without(order, k)
  }

  function Restrict<K(!new), V>(data: map<K, V>, keys: seq<K>): map<K, V> {
    map k | k in data && k in keys :: data[k]
  }

  /** Keeps the first capacity keys. */
  function Evict<K(!new), V>(capacity: nat, s: State<K, V>): State<K, V> {
    if |s.order| <= capacity then s
    else State(s.order[..capacity], Restrict(s.data, s.order[..capacity]))
  }

  function Step<K(==, !new), V>(capacity: nat, op: Op<K, V>, s: State<K, V>): State<K, V> {
    match op
    case Add(k, v) => Evict(capacity, State(Touch(s.order, k), s.data[k := v]))
    case Update(k, v) => Evict(capacity, State(Touch(s.order, k), s.data[k := v]))
    case Get(k) => if k in s.data then State(Touch(s.order, k), s.data) else s
    case Remove(k) => State(Without(s.order, k), s.data - {k})
    case Clear => State([], map[])
    case Replace => Evict(capacity, s)
  }

  function Run<K(==, !new), V>(capacity: nat, ops: seq<Op<K, V>>): State<K, V> {
    if ops == [] then State([], map[])
    else Step(capacity, ops[|ops| - 1], Run(capacity, ops[..|ops| - 1]))
  }

  function Result<K(!new), V>(s: State<K, V>, k: K): Option<V> {
    if k in s.data then Some(s.data[k]) else None
  }

  // ----- every state reached is well formed and within capacity --------------------------------

  lemma TouchKeepsDistinct<K(!new)>(order: seq<K>, k: K)
    requires NoDuplicates(order)
    ensures NoDuplicates(Touch(order, k))
    ensures |Touch(order, k)| == if k in order then |order| else |order| + 1
    ensures forall y :: y in Touch(order, k) <==> y in order || y == k
  {
    WithoutNoDuplicates(order, k);
  }

  lemma StepKeepsValid<K(!new), V>(capacity: nat, op: Op<K, V>, s: State<K, V>)
    requires Valid(s) && |s.order| <= capacity
    ensures Valid(Step(capacity, op, s)) && |Step(capacity, op, s).order| <= capacity
  {
    match op {
      case Add(k, _) => TouchKeepsDistinct(s.order, k);
      case Update(k, _) => TouchKeepsDistinct(s.order, k);
      case Get(k) => TouchKeepsDistinct(s.order, k);
      case Remove(k) => WithoutNoDuplicates(s.order, k);
      case _ =>
    }
  }

  lemma {:induction false} RunsStayValid<K(!new), V>(capacity: nat, ops: seq<Op<K, V>>)
    ensures Valid(Run(capacity, ops)) && |Run(capacity, ops).order| <= capacity
  {
    if ops == [] {
    } else {
      RunsStayValid(capacity, ops[..|ops| - 1]);
      StepKeepsValid(capacity, ops[|ops| - 1], Run(capacity, ops[..|ops| - 1]));
    }
  }

  // ----- the list is sorted by last use, so eviction removes the least recently used -----------

  predicate Touches<K(==, !new), V>(op: Op<K, V>, k: K) {
    (op.Add? || op.Update? || op.Get?) && op.key == k
  }

  /** The number of the last operation that added, updated or fetched k; 0 if none did. */
  function LastTouch<K(==, !new), V>(ops: seq<Op<K, V>>, k: K): (n: nat)
    ensures n <= |ops|
  {
    if ops == [] then 0
    else if Touches(ops[|ops| - 1], k) then |ops|
    else LastTouch(ops[..|ops| - 1], k)
  }

  ghost predicate SortedByUse<K(!new), V>(ops: seq<Op<K, V>>, order: seq<K>) {
    (forall i :: 0 <= i < |order| ==> LastTouch(ops, order[i]) > 0) &&
    (forall i, j :: 0 <= i < j < |order| ==> LastTouch(ops, order[i]) > LastTouch(ops, order[j]))
  }

  lemma WithoutKeepsSorted<K(!new), V>(ops: seq<Op<K, V>>, order: seq<K>, k: K)
    requires NoDuplicates(order) && SortedByUse(ops, order)
    ensures SortedByUse(ops, Without(order, k))
  {
    if i :| 0 <= i < |order| && order[i] == k {
      WithoutAt(order, i);
    } else {
      WithoutAbsent(order, k);
    }
  }

  /** An operation that touches at most the keys outside the list leaves its order alone. */
  lemma UntouchedStaySorted<K(!new), V>(ops: seq<Op<K, V>>, order: seq<K>)
    requires ops != [] && SortedByUse(ops[..|ops| - 1], order)
    requires forall k :: k in order ==> !Touches(ops[|ops| - 1], k)
    ensures SortedByUse(ops, order)
  {
    forall i | 0 <= i < |order|
      ensures LastTouch(ops, order[i]) == LastTouch(ops[..|ops| - 1], order[i])
    {
      assert order[i] in order;
    }
  }

  lemma TouchKeepsSorted<K(!new), V>(ops: seq<Op<K, V>>, order: seq<K>, k: K)
    requires ops != [] && SortedByUse(ops[..|ops| - 1], order) && NoDuplicates(order)
    requires Touches(ops[|ops| - 1], k)
    ensures SortedByUse(ops, Touch(order, k))
  {
    WithoutKeepsSorted(ops[..|ops| - 1], order, k);
    UntouchedStaySorted(ops, Without(order, k));
  }

  lemma {:induction false} RunsSortByUse<K(!new), V>(capacity: nat, ops: seq<Op<K, V>>)
    ensures SortedByUse(ops, Run(capacity, ops).order)
  {
    if ops == [] {
    } else {
      var before, op := ops[..|ops| - 1], ops[|ops| - 1];
      var s := Run(capacity, before);
      RunsSortByUse(capacity, before);
      RunsStayValid(capacity, before);
      match op {
        case Add(k, _) => TouchKeepsSorted(ops, s.order, k);
        case Update(k, _) => TouchKeepsSorted(ops, s.order, k);
        case Get(k) =>
          if k in s.data {
            TouchKeepsSorted(ops, s.order, k);
          } else {
            UntouchedStaySorted(ops, s.order);
          }
        case Remove(k) =>
          WithoutKeepsSorted(before, s.order, k);
          UntouchedStaySorted(ops, Without(s.order, k));
        case _ => UntouchedStaySorted(ops, s.order);
      }
    }
  }

  lemma CutIsLeastUsed<K(!new), V>(ops: seq<Op<K, V>>, order: seq<K>, capacity: nat, out: K, kept: K)
    requires SortedByUse(ops, order) && capacity <= |order|
    requires out in order[capacity..] && kept in order[..capacity]
    ensures LastTouch(ops, out) < LastTouch(ops, kept)
  {
    var i :| 0 <= i < |order[capacity..]| && order[capacity..][i] == out;
    var j :| 0 <= j < |order[..capacity]| && order[..capacity][j] == kept;
    assert LastTouch(ops, order[j]) > LastTouch(ops, order[capacity + i]);
  }

  /** Every key stays, unless it is removed itself, all are cleared, or it is cut off the end of the list by an
      add or update that overflows it. */
  lemma LostByStep<K(!new), V>(capacity: nat, op: Op<K, V>, s: State<K, V>, out: K)
    requires Valid(s) && |s.order| <= capacity
    requires out in s.data && out !in Step(capacity, op, s).data && op != Remove(out) && !op.Clear?
    ensures (op.Add? || op.Update?) && |Touch(s.order, op.key)| > capacity
    ensures Step(capacity, op, s).order == Touch(s.order, op.key)[..capacity]
    ensures out in Touch(s.order, op.key)[capacity..]
  {
    TouchKeepsDistinct(s.order, op.key);
    var order := Touch(s.order, op.key);
    if |order| > capacity {
      assert order == order[..capacity] + order[capacity..];
    }
  }

  /** In every run: a key that an operation pushes out was used less recently than every key that stays,
      and the capacity is then fully used. */
  lemma EvictsLeastRecentlyUsed<K(!new), V>(capacity: nat, ops: seq<Op<K, V>>, out: K, kept: K)
    requires ops != []
    requires var before, after := Run(capacity, ops[..|ops| - 1]), Run(capacity, ops);
             out in before.data && out !in after.data && kept in after.data &&
             ops[|ops| - 1] != Remove(out) && !ops[|ops| - 1].Clear?
    ensures LastTouch(ops, out) < LastTouch(ops, kept)
    ensures |Run(capacity, ops).order| == capacity
  {
    hide LastTouch, SortedByUse, Step, Evict;
    var before, op := ops[..|ops| - 1], ops[|ops| - 1];
    var s := Run(capacity, before);
    RunsSortByUse(capacity, before);
    RunsStayValid(capacity, before);
    RunsStayValid(capacity, ops);
    LostByStep(capacity, op, s, out);
    TouchKeepsSorted(ops, s.order, op.key);
    CutIsLeastUsed(ops, Touch(s.order, op.key), capacity, out, kept);
  }

  /** What one operation does to the entries: one appears or changes only by being added or updated, and takes
      that value; one disappears only by being removed, by a clear, or when the cache was full of other keys,
      all of them used later. */
  lemma StepEffect<K(!new), V>(capacity: nat, op: Op<K, V>, s: State<K, V>, k: K)
    requires Valid(s) && |s.order| <= capacity
    ensures var t, stored := Step(capacity, op, s), (op.Add? || op.Update?) && op.key == k;
            (capacity > 0 && stored ==> k in t.data && t.data[k] == op.value && t.order != [] && t.order[0] == k) &&
            (k in t.data && !stored ==> k in s.data && t.data[k] == s.data[k]) &&
            (op == Remove(k) || op.Clear? ==> k !in t.data) &&
            (k in s.data && k !in t.data && op != Remove(k) && !op.Clear? ==>
              (op.Add? || op.Update?) && op.key !in s.data && |s.order| == capacity > 0 && s.order[capacity - 1] == k)
  {
    hide Step, Valid;
    EntryEffect(capacity, op, s, k);
    if k in s.data && k !in Step(capacity, op, s).data && op != Remove(k) && !op.Clear? {
      LostIsLast(capacity, op, s, k);
    }
  }

  lemma EntryEffect<K(!new), V>(capacity: nat, op: Op<K, V>, s: State<K, V>, k: K)
    ensures var t, stored := Step(capacity, op, s), (op.Add? || op.Update?) && op.key == k;
            (capacity > 0 && stored ==> k in t.data && t.data[k] == op.value && t.order != [] && t.order[0] == k) &&
            (k in t.data && !stored ==> k in s.data && t.data[k] == s.data[k]) &&
            (op == Remove(k) || op.Clear? ==> k !in t.data)
  {
    hide Without;
    if (op.Add? || op.Update?) && op.key == k && capacity > 0 {
      var order := Touch(s.order, k);
      assert |order| > capacity ==> order[..capacity][0] == k;
    }
  }

  lemma LostIsLast<K(!new), V>(capacity: nat, op: Op<K, V>, s: State<K, V>, k: K)
    requires Valid(s) && |s.order| <= capacity
    requires k in s.data && k !in Step(capacity, op, s).data && op != Remove(k) && !op.Clear?
    ensures (op.Add? || op.Update?) && op.key !in s.data && |s.order| == capacity > 0 && s.order[capacity - 1] == k
  {
    hide Step, Touch;
    LostByStep(capacity, op, s, k);
    PushedOut(capacity, s.order, op.key, k);
  }

  lemma PushedOut<K(!new)>(capacity: nat, order: seq<K>, k: K, out: K)
    requires NoDuplicates(order) && |order| <= capacity < |Touch(order, k)|
    requires out in order && out in Touch(order, k)[capacity..]
    ensures k !in order && |order| == capacity > 0 && order[capacity - 1] == out
  {
    TouchKeepsDistinct(order, k);
    WithoutAbsent(order, k);
    hide Without, NoDuplicates;
    assert Touch(order, k)[capacity..] == [order[capacity - 1]];
  }

  lemma StoreEffect<K(!new), V>(capacity: nat, op: Op<K, V>, s: State<K, V>)
    requires Valid(s) && |s.order| <= capacity && capacity > 0 && (op.Add? || op.Update?)
    ensures var t := Step(capacity, op, s);
            op.key in t.data && t.data[op.key] == op.value && t.order != [] && t.order[0] == op.key &&
            forall k :: k in t.data && k != op.key ==> k in s.data && t.data[k] == s.data[k]
  {
    hide Step;
    StepEffect(capacity, op, s, op.key);
    StepKeepsValid(capacity, op, s);
    forall k | k in Step(capacity, op, s).data && k != op.key
      ensures k in s.data && Step(capacity, op, s).data[k] == s.data[k]
    {
      StepEffect(capacity, op, s, k);
    }
  }

  // ----- a hit returns what was stored last ----------------------------------------------------

  /** The value of the last add or update of k that no remove or clear has undone. */
  function LastStored<K(==, !new), V>(ops: seq<Op<K, V>>, k: K): Option<V> {
    if ops == [] then None
    else
      match ops[|ops| - 1]
      case Add(x, v) => if x == k then Some(v) else LastStored(ops[..|ops| - 1], k)
      case Update(x, v) => if x == k then Some(v) else LastStored(ops[..|ops| - 1], k)
      case Remove(x) => if x == k then None else LastStored(ops[..|ops| - 1], k)
      case Clear => None
      case _ => LastStored(ops[..|ops| - 1], k)
  }

  /** Eviction can lose an entry but never changes one. */
  lemma {:induction false} HitReturnsLastStored<K(!new), V>(capacity: nat, ops: seq<Op<K, V>>, k: K)
    requires Result(Run(capacity, ops), k).Some?
    ensures Result(Run(capacity, ops), k) == LastStored(ops, k)
  {
    if ops == [] {
    } else {
      var before := ops[..|ops| - 1];
      if k in Run(capacity, before).data {
        HitReturnsLastStored(capacity, before, k);
      }
    }
  }

  /** What was just stored is there, in a cache of any capacity but 0. */
  lemma StoredIsFound<K(!new), V>(capacity: nat, ops: seq<Op<K, V>>, k: K, v: V)
    requires capacity >= 1
    ensures Result(Run(capacity, ops + [Add(k, v)]), k) == Some(v)
    ensures Result(Run(capacity, ops + [Update(k, v)]), k) == Some(v)
  {
    assert (ops + [Add(k, v)])[..|ops|] == ops && (ops + [Update(k, v)])[..|ops|] == ops;
    var order := Touch(Run(capacity, ops).order, k);
    assert |order| > capacity ==> order[..capacity][0] == k;
  }

  // ----- inclusion: a smaller cache never hits where a larger one misses -----------------------

  /** The elements of s that lie in keys, in order. */
  ghost function Filter<K(!new)>(s: seq<K>, keys: iset<K>): seq<K> {
    if s == [] then []
    else if s[0] in keys then [s[0]] + Filter(s[1..], keys)
    else Filter(s[1..], keys)
  }

  ghost function KeysOf<K(!new)>(s: seq<K>): iset<K> {
    iset k | k in s
  }

  lemma {:induction false} FilterConcat<K(!new)>(a: seq<K>, b: seq<K>, keys: iset<K>)
    ensures Filter(a + b, keys) == Filter(a, keys) + Filter(b, keys)
  {
    if a == [] {
      assert a + b == b;
    } else {
      FilterConcat(a[1..], b, keys);
      var c, fa, fb := a + b, Filter(a[1..], keys), Filter(b, keys);
      assert c[0] == a[0] && c[1..] == a[1..] + b;
      assert [a[0]] + (fa + fb) == ([a[0]] + fa) + fb;
    }
  }

  lemma {:induction false} FilterMember<K(!new)>(s: seq<K>, keys: iset<K>, x: K)
    ensures x in Filter(s, keys) <==> x in s && x in keys
    ensures |Filter(s, keys)| <= |s|
  {
    if s == [] {
    } else {
      FilterMember(s[1..], keys, x);
    }
  }

  /** Filters agree when they agree on the elements of the sequence. */
  lemma {:induction false} FilterAgrees<K(!new)>(s: seq<K>, a: iset<K>, b: iset<K>)
    requires forall x :: x in s ==> (x in a <==> x in b)
    ensures Filter(s, a) == Filter(s, b)
  {
    if s == [] {
    } else {
      FilterAgrees(s[1..], a, b);
    }
  }

  lemma {:induction false} FilterWithout<K(!new)>(s: seq<K>, keys: iset<K>, x: K)
    ensures Without(Filter(s, keys), x) == Filter(Without(s, x), keys)
  {
    if s == [] {
    } else {
      FilterWithout(s[1..], keys, x);
    }
  }

  /** The small cache's recency list is the large one's with some keys left out, its values are the
      large one's, and at most gap keys are left out. */
  ghost predicate Included<K(!new), V>(small: State<K, V>, large: State<K, V>, gap: nat) {
    small.order == Filter(large.order, KeysOf(small.order)) &&
    (forall k :: k in small.data ==> k in large.data && large.data[k] == small.data[k]) &&
    |large.order| - |small.order| <= gap
  }

  lemma WithoutKeepsIncluded<K(!new)>(small: seq<K>, large: seq<K>, x: K)
    requires small == Filter(large, KeysOf(small))
    ensures Without(small, x) == Filter(Without(large, x), KeysOf(Without(small, x)))
  {
    FilterWithout(large, KeysOf(small), x);
    FilterAgrees(Without(large, x), KeysOf(small), KeysOf(Without(small, x)));
  }

  lemma TouchKeepsIncluded<K(!new)>(small: seq<K>, large: seq<K>, x: K)
    requires small == Filter(large, KeysOf(small))
    ensures Touch(small, x) == Filter(Touch(large, x), KeysOf(Touch(small, x)))
  {
    WithoutKeepsIncluded(small, large, x);
    var rest := Without(large, x);
    FilterAgrees(rest, KeysOf(Without(small, x)), KeysOf(Touch(small, x)));
    assert Touch(large, x)[1..] == rest;
  }

  lemma MissKeepsIncluded<K(!new)>(small: seq<K>, large: seq<K>, x: K)
    requires small == Filter(large, KeysOf(small)) && x !in small
    ensures small == Filter(Touch(large, x), KeysOf(small))
  {
    FilterWithout(large, KeysOf(small), x);
    WithoutAbsent(small, x);
    assert Touch(large, x)[1..] == Without(large, x);
  }

  /** At most as many elements are filtered out of a prefix as out of the whole. */
  lemma FilterPrefix<K(!new)>(s: seq<K>, keys: iset<K>, m: nat)
    requires m <= |s|
    ensures Filter(s[..m], keys) <= Filter(s, keys)
    ensures m - |Filter(s[..m], keys)| <= |s| - |Filter(s, keys)|
  {
    assert s == s[..m] + s[m..];
    FilterConcat(s[..m], s[m..], keys);
    if s[m..] != [] {
      FilterMember(s[m..], keys, s[m]);
    }
  }

  /** A prefix of a filtered duplicate-free sequence is itself a filter of that sequence. */
  lemma {:induction false} PrefixOfFilter<K(!new)>(s: seq<K>, keys: iset<K>, n: nat)
    requires NoDuplicates(s) && n <= |Filter(s, keys)|
    ensures Filter(s, KeysOf(Filter(s, keys)[..n])) == Filter(s, keys)[..n]
    decreases |s|
  {
    var f := Filter(s, keys);
    if n == 0 {
      FilterNone(s, KeysOf(f[..0]));
    } else if s[0] !in keys {
      assert f == Filter(s[1..], keys);
      PrefixOfFilter(s[1..], keys, n);
      FilterMember(s[1..], keys, s[0]);
      assert s[0] !in f[..n];
    } else {
      var rest := Filter(s[1..], keys);
      assert f[..n] == [s[0]] + rest[..n - 1];
      PrefixOfFilter(s[1..], keys, n - 1);
      FilterAgrees(s[1..], KeysOf(rest[..n - 1]), KeysOf(f[..n]));
    }
  }

  lemma {:induction false} FilterNone<K(!new)>(s: seq<K>, keys: iset<K>)
    requires forall k :: k in s ==> k !in keys
    ensures Filter(s, keys) == []
  {
    if s == [] {
    } else {
      FilterNone(s[1..], keys);
    }
  }

  lemma EvictKeepsOrder<K(!new)>(n: nat, m: nat, small: seq<K>, large: seq<K>)
    requires n <= m && small == Filter(large, KeysOf(small)) && NoDuplicates(large)
    requires |large| - |small| <= m - n
    ensures var a, b := if |small| <= n then small else small[..n], if |large| <= m then large else large[..m];
            a == Filter(b, KeysOf(a)) && |b| - |a| <= m - n
  {
    var keys := KeysOf(small);
    var b := if |large| <= m then large else large[..m];
    FilterPrefix(large, keys, |b|);
    assert large[..|b|] == b;
    var f := Filter(b, keys);
    var a := if |small| <= n then small else small[..n];
    assert |a| <= |f|;
    assert a == f[..|a|];
    PrefixOfFilter(b, keys, |a|);
  }

  lemma EvictKeepsIncluded<K(!new), V>(n: nat, m: nat, small: State<K, V>, large: State<K, V>)
    requires n <= m && Valid(small) && Valid(large) && Included(small, large, m - n)
    ensures Included(Evict(n, small), Evict(m, large), m - n)
  {
    EvictKeepsOrder(n, m, small.order, large.order);
    var a, b := Evict(n, small), Evict(m, large);
    forall k | k in a.data
      ensures k in b.data && b.data[k] == a.data[k]
    {
      FilterMember(b.order, KeysOf(a.order), k);
    }
  }

  lemma StoreKeepsIncluded<K(!new), V>(
    n: nat, m: nat, small: State<K, V>, large: State<K, V>, k: K, v: V)
    requires n <= m && Valid(small) && Valid(large) && Included(small, large, m - n)
    ensures Included(Evict(n, State(Touch(small.order, k), small.data[k := v])),
                     Evict(m, State(Touch(large.order, k), large.data[k := v])), m - n)
  {
    TouchKeepsIncluded(small.order, large.order, k);
    TouchKeepsDistinct(small.order, k);
    TouchKeepsDistinct(large.order, k);
    FilterMember(large.order, KeysOf(small.order), k);
    EvictKeepsIncluded(n, m, State(Touch(small.order, k), small.data[k := v]),
      State(Touch(large.order, k), large.data[k := v]));
  }

  lemma StepKeepsIncluded<K(!new), V>(n: nat, m: nat, op: Op<K, V>, small: State<K, V>, large: State<K, V>)
    requires n <= m && Valid(small) && Valid(large) && Included(small, large, m - n)
    ensures Included(Step(n, op, small), Step(m, op, large), m - n)
  {
    match op {
      case Add(k, v) => StoreKeepsIncluded(n, m, small, large, k, v);
      case Update(k, v) => StoreKeepsIncluded(n, m, small, large, k, v);
      case Get(k) =>
        TouchKeepsDistinct(small.order, k);
        TouchKeepsDistinct(large.order, k);
        if k in small.data {
          TouchKeepsIncluded(small.order, large.order, k);
        } else if k in large.data {
          MissKeepsIncluded(small.order, large.order, k);
        }
      case Remove(k) =>
        WithoutKeepsIncluded(small.order, large.order, k);
        WithoutNoDuplicates(small.order, k);
        WithoutNoDuplicates(large.order, k);
        FilterMember(large.order, KeysOf(small.order), k);
      case Clear =>
      case Replace => EvictKeepsIncluded(n, m, small, large);
    }
  }

  lemma {:induction false} RunsStayIncluded<K(!new), V>(n: nat, m: nat, ops: seq<Op<K, V>>)
    requires n <= m
    ensures Included(Run(n, ops), Run(m, ops), m - n)
  {
    if ops == [] {
    } else {
      var before := ops[..|ops| - 1];
      RunsStayIncluded(n, m, before);
      RunsStayValid(n, before);
      RunsStayValid(m, before);
      StepKeepsIncluded(n, m, ops[|ops| - 1], Run(n, before), Run(m, before));
    }
  }

  /** After the same operations, a hit in the smaller cache is a hit with the same value in the larger. */
  lemma SmallHitIsLargeHit<K(!new), V>(n: nat, m: nat, ops: seq<Op<K, V>>, k: K)
    requires n <= m && Result(Run(n, ops), k).Some?
    ensures Result(Run(m, ops), k) == Result(Run(n, ops), k)
  {
    RunsStayIncluded(n, m, ops);
  }
}
