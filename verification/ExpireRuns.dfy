/** Time-based expiry on values: what the two expire caches promise over whole runs. */
module ExpireRuns {
  import opened CacheOperations
  import opened Collections

  /** One cache operation and the clock reading it is made with. */
  datatype Event<K, V> = Event(op: Op<K, V>, now: int)

  datatype Dated<V> = Dated(value: V, stamp: int)

  /** Timestamp::isElapsed. */
  predicate Elapsed(stamp: int, now: int, limit: int) {
    now - stamp >= limit
  }

  function Prune<K, V>(m: map<K, Dated<V>>, now: int, limit: int): map<K, Dated<V>> {
    map k | k in m && !Elapsed(m[k].stamp, now, limit) :: m[k]
  }

  /** access selects AccessExpireStrategy, where a successful fetch renews the entry. */
  function Step<K, V>(access: bool, limit: int, e: Event<K, V>, m: map<K, Dated<V>>): map<K, Dated<V>> {
    match e.op
    case Add(k, v) => Prune(m[k := Dated(v, e.now)], e.now, limit)
    case Update(k, v) => Prune(m[k := Dated(v, e.now)], e.now, limit)
    case Get(k) =>
      if k !in m then m
      else if Elapsed(m[k].stamp, e.now, limit) then m - {k}
      else if access then m[k := Dated(m[k].value, e.now)]
      else m
    case Remove(k) => m - {k}
    case Clear => map[]
    case Replace => Prune(m, e.now, limit)
  }

  function Result<K, V>(m: map<K, Dated<V>>, k: K, now: int, limit: int): Option<V> {
    if k in m && !Elapsed(m[k].stamp, now, limit) then Some(m[k].value) else None
  }

  function Run<K, V>(access: bool, limit: int, history: seq<Event<K, V>>): map<K, Dated<V>> {
    if history == [] then map[]
    else Step(access, limit, history[|history| - 1], Run(access, limit, history[..|history| - 1]))
  }

  /** The last add or update of k not undone by a remove or clear; with access, renewed by each fetch
      made while it was still young. Nothing is ever pruned here. */
  function Last<K(==), V>(access: bool, limit: int, history: seq<Event<K, V>>, k: K): Option<Dated<V>> {
    if history == [] then None
    else
      var e, before := history[|history| - 1], Last(access, limit, history[..|history| - 1], k);
      match e.op
      case Add(x, v) => if x == k then Some(Dated(v, e.now)) else before
      case Update(x, v) => if x == k then Some(Dated(v, e.now)) else before
      case Get(x) =>
        if x == k && access && before.Some? && !Elapsed(before.value.stamp, e.now, limit)
        then Some(Dated(before.value.value, e.now)) else before
      case Remove(x) => if x == k then None else before
      case Clear => None
      case Replace => before
  }

  predicate Expired<V>(entry: Option<Dated<V>>, now: int, limit: int) {
    entry.Some? && Elapsed(entry.value.stamp, now, limit)
  }

  /** Since the last add or update of k some operation that looks at its entry, which is each of its own
      fetches and every add, update and replace, has read the clock when the entry had expired. */
  predicate Dropped<K(==), V>(access: bool, limit: int, history: seq<Event<K, V>>, k: K) {
    if history == [] then false
    else
      var e, before := history[|history| - 1], history[..|history| - 1];
      var seen := Dropped(access, limit, before, k) || Expired(Last(access, limit, before, k), e.now, limit);
      match e.op
      case Add(x, _) => x != k && seen
      case Update(x, _) => x != k && seen
      case Get(x) => if x == k then seen else Dropped(access, limit, before, k)
      case Remove(x) => x != k && Dropped(access, limit, before, k)
      case Clear => false
      case Replace => seen
  }

  /** What the cache holds of a key, for any readings of the clock. */
  lemma {:induction false} RunHolds<K, V>(access: bool, limit: int, history: seq<Event<K, V>>, k: K)
    requires limit > 0
    ensures var m := Run(access, limit, history);
            (k in m <==> Last(access, limit, history, k).Some? && !Dropped(access, limit, history, k)) &&
            (k in m ==> Last(access, limit, history, k) == Some(m[k]))
  {
    if history == [] {
    } else {
      RunHolds(access, limit, history[..|history| - 1], k);
    }
  }

  /** A fetch serves the last entry of the key, if it is younger than the limit, and nothing otherwise. */
  ghost predicate FetchServesYoung<K(!new), V>(access: bool, limit: int, history: seq<Event<K, V>>, k: K, now: int) {
    var last := Last(access, limit, history, k);
    Result(Run(access, limit, history), k, now, limit) ==
    if last.Some? && !Elapsed(last.value.stamp, now, limit) then Some(last.value.value) else None
  }

  /** It does so for any readings of the clock, except exactly when the entry is young again after an
      earlier operation has seen it expired; then the fetch fails. */
  lemma FetchServesYoungIff<K(!new), V>(access: bool, limit: int, history: seq<Event<K, V>>, k: K, now: int)
    requires limit > 0
    ensures var last := Last(access, limit, history, k);
            var revived := last.Some? && !Elapsed(last.value.stamp, now, limit) && Dropped(access, limit, history, k);
            (FetchServesYoung(access, limit, history, k, now) <==> !revived) &&
            (revived ==> Result(Run(access, limit, history), k, now, limit) == None)
  {
    RunHolds(access, limit, history, k);
  }

  ghost predicate ClockNeverGoesBack<K, V>(history: seq<Event<K, V>>, now: int) {
    (forall i, j :: 0 <= i < j < |history| ==> history[i].now <= history[j].now) &&
    (history != [] ==> history[|history| - 1].now <= now)
  }

  /** With a clock that never goes back an entry once seen expired stays expired. */
  lemma {:induction false} DroppedStaysExpired<K(!new), V>(
    access: bool, limit: int, history: seq<Event<K, V>>, k: K, now: int)
    requires ClockNeverGoesBack(history, now) && Dropped(access, limit, history, k)
    requires Last(access, limit, history, k).Some?
    ensures Expired(Last(access, limit, history, k), now, limit)
  {
    var before, e := history[..|history| - 1], history[|history| - 1];
    if Dropped(access, limit, before, k) {
      DroppedStaysExpired(access, limit, before, k, e.now);
    }
  }

  /** Then the cache holds the last entry of every key, except for some that have expired by now. */
  lemma RunTracksLast<K(!new), V>(access: bool, limit: int, history: seq<Event<K, V>>, now: int)
    requires limit > 0 && ClockNeverGoesBack(history, now)
    ensures forall k :: if k in Run(access, limit, history)
                        then Last(access, limit, history, k) == Some(Run(access, limit, history)[k])
                        else Last(access, limit, history, k).None? ||
                             Expired(Last(access, limit, history, k), now, limit)
  {
    forall k
      ensures if k in Run(access, limit, history)
              then Last(access, limit, history, k) == Some(Run(access, limit, history)[k])
              else Last(access, limit, history, k).None? || Expired(Last(access, limit, history, k), now, limit)
    {
      RunHolds(access, limit, history, k);
      if Dropped(access, limit, history, k) && Last(access, limit, history, k).Some? {
        DroppedStaysExpired(access, limit, history, k, now);
      }
    }
  }

  /** So with such a clock a fetch succeeds exactly when the last entry of the key is younger than the
      limit, and returns it. */
  lemma FetchSucceedsIffYoung<K(!new), V>(access: bool, limit: int, history: seq<Event<K, V>>, k: K, now: int)
    requires limit > 0 && ClockNeverGoesBack(history, now)
    ensures FetchServesYoung(access, limit, history, k, now)
  {
    FetchServesYoungIff(access, limit, history, k, now);
    if Dropped(access, limit, history, k) && Last(access, limit, history, k).Some? {
      DroppedStaysExpired(access, limit, history, k, now);
    }
  }

  /** What access expiry is for: a fetch renews the entry under access expiry and under that only, so an entry
      fetched just in time is still served when its first limit is over. */
  lemma AccessRenews(limit: int)
    requires limit > 1
    ensures var history := [Event(Add(7, "v"), 0), Event(Get(7), limit - 1)];
            Result(Run(true, limit, history), 7, limit, limit) == Some("v") &&
            Result(Run(false, limit, history), 7, limit, limit) == None &&
            Result(Run(true, limit, history), 7, 2 * limit - 1, limit) == None
  {
    var one, two := [Event(Add(7, "v"), 0)], [Event(Add(7, "v"), 0), Event(Get(7), limit - 1)];
    assert two[..1] == one && one[..0] == [];
    assert forall access :: Run(access, limit, one) == map[7 := Dated("v", 0)];
    assert Run(true, limit, two) == map[7 := Dated("v", limit - 1)];
    assert Run(false, limit, two) == map[7 := Dated("v", 0)];
  }

  /** The clock matters: an entry pruned at a late reading stays lost when the clock is set back. */
  lemma PrunedStaysLostWhenClockGoesBack(limit: int)
    requires limit > 0
    ensures var history := [Event(Add(7, "v"), 0), Event(Replace, limit)];
            Last(false, limit, history, 7) == Some(Dated("v", 0)) && !Elapsed(0, limit - 1, limit) &&
            Dropped(false, limit, history, 7) &&
            Result(Run(false, limit, history), 7, limit - 1, limit) == None
  {
    var one, two := [Event(Add(7, "v"), 0)], [Event(Add(7, "v"), 0), Event(Replace, limit)];
    assert two[..1] == one && one[..0] == [];
    assert Run(false, limit, one) == map[7 := Dated("v", 0)];
    assert Last(false, limit, one, 7) == Some(Dated("v", 0));
  }
}
