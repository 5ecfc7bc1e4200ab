/** The object pool as a protocol: the lock-protected steps of shared/include/Poco/ObjectPool.h. */
module PoolRuns {
  import opened Collections

  /** lent is with borrowers; lost counts pooled objects destroyed because their activation failed, which
      _size goes on counting; objects are numbered as they are created. */
  datatype State = State(
    pool: seq<nat>, size: int, lent: set<nat>, lost: nat, next: nat, waiting: nat)

  const INIT := State([], 0, {}, 0, 0, 0)

  /** created and activated are the factory's doing: false is an exception. */
  datatype Op =
    | Borrow(zeroTimeout: bool, created: bool, activated: bool)
    | Wake(created: bool, activated: bool)
    | TimeOut
    | Return(item: nat, valid: bool)

  /** Null is the null pointer, Threw the factory's exception passed on, Waits a borrower left waiting. */
  datatype Result = Got(item: nat) | Null | Threw | Waits | Kept | Destroyed

  predicate Enabled(op: Op, s: State) {
    match op
    case Borrow(_, _, _) => true
    case Wake(_, _) => s.waiting > 0
    case TimeOut => s.waiting > 0
    case Return(o, _) => o in s.lent
  }

  /** createObject, activateObject, _size++ */
  function Create(s: State, created: bool, activated: bool): (State, Result) {
    if !created then (s, Threw)
    else if !activated then (s.(next := s.next + 1), Threw)
    else (s.(size := s.size + 1, lent := s.lent + {s.next}, next := s.next + 1), Got(s.next))
  }

  function Step(capacity: nat, peak: nat, op: Op, s: State): (State, Result)
    requires Enabled(op, s)
  {
    match op
    case Borrow(zero, created, activated) =>
      if s.pool != [] then
        var o, rest := s.pool[|s.pool| - 1], s.pool[..|s.pool| - 1];
        if activated then (s.(pool := rest, lent := s.lent + {o}), Got(o))
        else (s.(pool := rest, lost := s.lost + 1), Threw)
      else if s.size >= peak then
        if zero then (s, Null) else (s.(waiting := s.waiting + 1), Waits)
      else Create(s, created, activated)
    case Wake(created, activated) =>
      if s.size >= peak then (s, Waits)
      else Create(s.(waiting := s.waiting - 1), created, activated)
    case TimeOut => (s.(waiting := s.waiting - 1), Null)
    case Return(o, valid) =>
      if valid && |s.pool| < capacity then (s.(pool := s.pool + [o], lent := s.lent - {o}), Kept)
      else (s.(lent := s.lent - {o}, size := s.size - 1), Destroyed)
  }

  ghost predicate Inv(capacity: nat, peak: nat, s: State) {
    s.size == |s.pool| + |s.lent| + s.lost && s.size <= peak && |s.pool| <= capacity &&
    NoDuplicates(s.pool) && (forall o :: o in s.pool ==> o !in s.lent) &&
    (forall o :: o in s.pool || o in s.lent ==> o < s.next)
  }

  lemma ReturnKeepsInv(capacity: nat, peak: nat, op: Op, s: State)
    requires Enabled(op, s) && Inv(capacity, peak, s) && op.Return?
    ensures Inv(capacity, peak, Step(capacity, peak, op, s).0) && !Step(capacity, peak, op, s).1.Got?
  {
    assert |s.lent - {op.item}| == |s.lent| - 1;
  }

  lemma OtherKeepsInv(capacity: nat, peak: nat, op: Op, s: State)
    requires Enabled(op, s) && Inv(capacity, peak, s) && !op.Return?
    ensures Inv(capacity, peak, Step(capacity, peak, op, s).0)
    ensures Step(capacity, peak, op, s).1.Got? ==> Step(capacity, peak, op, s).1.item !in s.lent
  {
    hide NoDuplicates;
    if op.Borrow? && s.pool != [] {
      var o, rest := s.pool[|s.pool| - 1], s.pool[..|s.pool| - 1];
      LastIsNoDuplicate(s.pool);
      assert forall x :: x in rest ==> x in s.pool;
    }
  }

  lemma LastIsNoDuplicate(pool: seq<nat>)
    requires NoDuplicates(pool) && pool != []
    ensures NoDuplicates(pool[..|pool| - 1]) && pool[|pool| - 1] !in pool[..|pool| - 1]
  {
  }

  lemma StepKeepsInv(capacity: nat, peak: nat, op: Op, s: State)
    requires Enabled(op, s) && Inv(capacity, peak, s)
    ensures Inv(capacity, peak, Step(capacity, peak, op, s).0)
    ensures Step(capacity, peak, op, s).1.Got? ==> Step(capacity, peak, op, s).1.item !in s.lent
  {
    if op.Return? {
      ReturnKeepsInv(capacity, peak, op, s);
    } else {
      OtherKeepsInv(capacity, peak, op, s);
    }
  }

  ghost predicate IsRun(capacity: nat, peak: nat, ops: seq<Op>, states: seq<State>) {
    |states| == |ops| + 1 && states[0] == INIT &&
    forall i :: 0 <= i < |ops| ==> Enabled(ops[i], states[i]) && states[i + 1] == Step(capacity, peak, ops[i], states[i]).0
  }

  /** In every interleaving of borrowers, waiters and returns: every object counted is pooled, lent or lost,
      the limits hold, and no object is pooled twice or both pooled and lent. */
  lemma {:induction false} RunKeepsInv(capacity: nat, peak: nat, ops: seq<Op>, states: seq<State>, n: nat)
    requires IsRun(capacity, peak, ops, states) && n <= |ops|
    ensures Inv(capacity, peak, states[n])
  {
    hide Inv, Step, Enabled;
    if n == 0 {
      InitHolds(capacity, peak);
    } else {
      RunKeepsInv(capacity, peak, ops, states, n - 1);
      StepKeepsInv(capacity, peak, ops[n - 1], states[n - 1]);
    }
  }

  lemma InitHolds(capacity: nat, peak: nat)
    ensures Inv(capacity, peak, INIT)
  {
  }

  // ----- available() ---------------------------------------------------------------------------

  function Available(peak: nat, s: State): int {
    |s.pool| + peak - s.size
  }

  /** So many zero-timeout borrows in a row, with a factory that does not fail. */
  function BorrowMany(capacity: nat, peak: nat, n: nat, s: State): State {
    if n == 0 then s
    else Step(capacity, peak, Borrow(true, true, true), BorrowMany(capacity, peak, n - 1, s)).0
  }

  /** available() is exactly the number of borrows in a row that succeed: the (n + 1)-th succeeds if and
      only if n is less. */
  lemma {:induction false} AvailableIsBorrowable(capacity: nat, peak: nat, n: nat, s: State)
    requires Inv(capacity, peak, s)
    ensures var t := BorrowMany(capacity, peak, n, s);
            Inv(capacity, peak, t) && Available(peak, t) == (if n < Available(peak, s) then Available(peak, s) - n else 0)
    ensures var r := Step(capacity, peak, Borrow(true, true, true), BorrowMany(capacity, peak, n, s)).1;
            (r.Got? <==> n < Available(peak, s)) && (r == Null <==> n >= Available(peak, s))
  {
    hide Inv;
    if n == 0 {
      InvBounds(capacity, peak, s);
    } else {
      AvailableIsBorrowable(capacity, peak, n - 1, s);
      StepKeepsInv(capacity, peak, Borrow(true, true, true), BorrowMany(capacity, peak, n - 1, s));
      InvBounds(capacity, peak, BorrowMany(capacity, peak, n, s));
    }
  }

  lemma InvBounds(capacity: nat, peak: nat, s: State)
    requires Inv(capacity, peak, s)
    ensures s.size <= peak && |s.pool| <= s.size
  {
  }

  /** The pool is a stack: an object that was kept is the next one lent, and lending it undoes the return. */
  lemma BorrowUndoesReturn(capacity: nat, peak: nat, o: nat, zeroTimeout: bool, created: bool, s: State)
    requires o in s.lent && Step(capacity, peak, Return(o, true), s).1 == Kept
    ensures var kept := Step(capacity, peak, Return(o, true), s).0;
            Step(capacity, peak, Borrow(zeroTimeout, created, true), kept) == (s, Got(o))
  {
    assert s.lent - {o} + {o} == s.lent;
  }

  // ----- waiting borrowers ---------------------------------------------------------------------

  /** A woken borrower looks at _size only. It goes back to waiting although an object is available exactly
      when all objects count and one of them lies in the pool. */
  lemma WakeMissesPooledObjectIff(capacity: nat, peak: nat, s: State)
    requires Inv(capacity, peak, s) && s.waiting > 0
    ensures (Step(capacity, peak, Wake(true, true), s).1 == Waits && Available(peak, s) > 0)
        <==> (s.size == peak && s.pool != [])
  {
  }

  /** Such a state is reached when the only object is returned: it goes to the pool without a signal and
      the borrower times out. */
  lemma PooledObjectIsMissed()
    ensures var s1 := Step(1, 1, Borrow(true, true, true), INIT).0;
            var s2 := Step(1, 1, Borrow(false, true, true), s1).0;
            var s3 := Step(1, 1, Return(0, true), s2).0;
            Step(1, 1, Borrow(true, true, true), INIT).1 == Got(0) && s2.waiting == 1 &&
            Step(1, 1, Return(0, true), s2).1 == Kept && Available(1, s3) == 1 &&
            Step(1, 1, TimeOut, s3).1 == Null
  {
  }

  // ----- lost objects --------------------------------------------------------------------------

  /** The operations can follow one another from s on and one of them lends an object. */
  ghost predicate Lends(capacity: nat, peak: nat, ops: seq<Op>, s: State) {
    ops != [] && Enabled(ops[0], s) &&
    (Step(capacity, peak, ops[0], s).1.Got? || Lends(capacity, peak, ops[1..], Step(capacity, peak, ops[0], s).0))
  }

  ghost predicate CanLend(capacity: nat, peak: nat, s: State) {
    exists ops :: Lends(capacity, peak, ops, s)
  }

  lemma AllLostLendsNothing(capacity: nat, peak: nat, op: Op, s: State)
    requires Enabled(op, s) && Inv(capacity, peak, s) && s.lost >= peak
    ensures s.lost == peak && !Step(capacity, peak, op, s).1.Got?
    ensures Step(capacity, peak, op, s).0.lost == peak
  {
  }

  lemma {:induction false} LostForGood(capacity: nat, peak: nat, ops: seq<Op>, s: State)
    requires Inv(capacity, peak, s) && s.lost >= peak
    ensures !Lends(capacity, peak, ops, s)
  {
    hide Inv, Step, Enabled;
    if ops == [] {
    } else if Enabled(ops[0], s) {
      AllLostLendsNothing(capacity, peak, ops[0], s);
      StepKeepsInv(capacity, peak, ops[0], s);
      LostForGood(capacity, peak, ops[1..], Step(capacity, peak, ops[0], s).0);
    }
  }

  /** At most one object has to be returned before the next borrow succeeds. */
  lemma LendsAgain(capacity: nat, peak: nat, s: State) returns (ops: seq<Op>)
    requires Inv(capacity, peak, s) && s.lost < peak
    ensures Lends(capacity, peak, ops, s)
    ensures ops == [Borrow(true, true, true)] ||
            (|ops| == 2 && ops[0].Return? && ops[1] == Borrow(true, true, true))
  {
    var borrow := Borrow(true, true, true);
    if s.pool != [] || s.size < peak {
      ops := [borrow];
      assert Step(capacity, peak, ops[0], s).1.Got?;
    } else {
      assert s.lent != {};
      var o :| o in s.lent;
      ops := [Return(o, true), borrow];
      var t := Step(capacity, peak, ops[0], s).0;
      assert t.pool != [] || t.size < peak;
      assert ops[1..][0] == borrow && Step(capacity, peak, borrow, t).1.Got?;
      assert Lends(capacity, peak, ops[1..], t);
    }
  }

  /** A pool can lend again, in some continuation, exactly while not all objects it may have were lost to
      failed activations; a client sees that it cannot when the size is at its peak although nothing is
      pooled or lent. */
  lemma LendsAgainIff(capacity: nat, peak: nat, s: State)
    requires Inv(capacity, peak, s)
    ensures CanLend(capacity, peak, s) <==> s.lost < peak
    ensures s.lost < peak <==> !(s.size >= peak && s.pool == [] && s.lent == {})
  {
    InvLent(capacity, peak, s);
    if s.lost < peak {
      var ops := LendsAgain(capacity, peak, s);
    } else if CanLend(capacity, peak, s) {
      var ops :| Lends(capacity, peak, ops, s);
      LostForGood(capacity, peak, ops, s);
    }
  }

  lemma InvLent(capacity: nat, peak: nat, s: State)
    requires Inv(capacity, peak, s)
    ensures s.lent != {} ==> s.size >= s.lost + 1
  {
    if s.lent != {} {
      var o :| o in s.lent;
      assert |s.lent - {o}| == |s.lent| - 1;
    }
  }

  /** Such a pool is reached: its only object is lent, returned and lost when it is activated again. */
  lemma OnlyObjectIsLost()
    ensures var s1 := Step(1, 1, Borrow(true, true, true), INIT).0;
            var s2 := Step(1, 1, Return(0, true), s1).0;
            var s3 := Step(1, 1, Borrow(true, true, false), s2).0;
            s1.lent == {0} && s2.pool == [0] && s3 == State([], 1, {}, 1, 1, 0) &&
            Available(1, s3) == 0 && !CanLend(1, 1, s3)
  {
    var s1 := Step(1, 1, Borrow(true, true, true), INIT).0;
    assert s1.lent == {0};
    StepKeepsInv(1, 1, Borrow(true, true, true), INIT);
    var s2 := Step(1, 1, Return(0, true), s1).0;
    StepKeepsInv(1, 1, Return(0, true), s1);
    StepKeepsInv(1, 1, Borrow(true, true, false), s2);
    LendsAgainIff(1, 1, Step(1, 1, Borrow(true, true, false), s2).0);
  }

  // ----- destroyed objects ---------------------------------------------------------------------

  /** What a borrow gives: an object when one is pooled and can be activated, or can be made; the one pooled
      last, or else a new one. The null pointer comes only without a time-out, from a pool that has nothing
      and may not make more; an exception only from the factory. */
  lemma BorrowEffect(capacity: nat, peak: nat, zero: bool, created: bool, activated: bool, s: State)
    requires Inv(capacity, peak, s)
    ensures var (t, r) := Step(capacity, peak, Borrow(zero, created, activated), s);
            (r.Got? <==> activated && (s.pool != [] || (created && s.size < peak))) &&
            (r.Got? ==> t.lent == s.lent + {r.item}) &&
            (r.Got? && s.pool != [] ==> s.pool == t.pool + [r.item]) &&
            (r.Got? && s.pool == [] ==> t.pool == [] && r.item == s.next && t.next > s.next) &&
            (r == Null <==> zero && s.pool == [] && s.size == peak) &&
            (r == Waits <==> !zero && s.pool == [] && s.size == peak) &&
            (r.Threw? || r == Null ==> t.lent == s.lent && t.waiting == s.waiting) &&
            (r == Waits ==> t == s.(waiting := s.waiting + 1))
  {
  }

  /** What a return does: an object that is valid is kept while there is room; it is destroyed otherwise, and
      then no longer counted. */
  lemma ReturnEffect(capacity: nat, peak: nat, o: nat, valid: bool, s: State)
    requires Inv(capacity, peak, s) && o in s.lent
    ensures var (t, r) := Step(capacity, peak, Return(o, valid), s);
            t.lent == s.lent - {o} && t.waiting == s.waiting &&
            (valid && |s.pool| < capacity ==> r == Kept && t.pool == s.pool + [o] && t.size == s.size) &&
            (!valid || |s.pool| == capacity ==> r == Destroyed && t.pool == s.pool && t.size == s.size - 1)
  {
  }

  /** The object was made once and is neither pooled nor lent any more. */
  ghost predicate Gone(s: State, o: nat) {
    o < s.next && o !in s.pool && o !in s.lent
  }

  lemma GoneStays(capacity: nat, peak: nat, op: Op, s: State, o: nat)
    requires Enabled(op, s) && Gone(s, o)
    ensures Gone(Step(capacity, peak, op, s).0, o) && Step(capacity, peak, op, s).1 != Got(o)
  {
  }

  /** The operations can follow one another from s on and one of them lends the object. */
  ghost predicate LendsObject(capacity: nat, peak: nat, ops: seq<Op>, s: State, o: nat) {
    ops != [] && Enabled(ops[0], s) &&
    (Step(capacity, peak, ops[0], s).1 == Got(o) || LendsObject(capacity, peak, ops[1..], Step(capacity, peak, ops[0], s).0, o))
  }

  lemma {:induction false} GoneForGood(capacity: nat, peak: nat, ops: seq<Op>, s: State, o: nat)
    requires Gone(s, o)
    ensures !LendsObject(capacity, peak, ops, s, o)
  {
    hide Gone, Step, Enabled;
    if ops == [] {
    } else if Enabled(ops[0], s) {
      GoneStays(capacity, peak, ops[0], s, o);
      GoneForGood(capacity, peak, ops[1..], Step(capacity, peak, ops[0], s).0, o);
    }
  }

  /** An object that fails its validation is never lent again, in no continuation, nor is one that fails its
      activation. */
  lemma InvalidIsNeverLentAgain(capacity: nat, peak: nat, o: nat, ops: seq<Op>, s: State)
    requires Inv(capacity, peak, s)
    ensures o in s.lent ==> !LendsObject(capacity, peak, ops, Step(capacity, peak, Return(o, false), s).0, o)
    ensures s.pool != [] && s.pool[|s.pool| - 1] == o ==>
      !LendsObject(capacity, peak, ops, Step(capacity, peak, Borrow(true, true, false), s).0, o)
  {
    hide LendsObject;
    if o in s.lent {
      var t := Step(capacity, peak, Return(o, false), s).0;
      assert Gone(t, o);
      GoneForGood(capacity, peak, ops, t, o);
    }
    if s.pool != [] && s.pool[|s.pool| - 1] == o {
      var t := Step(capacity, peak, Borrow(true, true, false), s).0;
      assert t.pool == s.pool[..|s.pool| - 1];
      assert Gone(t, o);
      GoneForGood(capacity, peak, ops, t, o);
    }
  }

  /** A woken borrower that finds the size below its peak makes an object, and one whose time is up gets the
      null pointer. */
  lemma ResumeEffect(capacity: nat, peak: nat, created: bool, activated: bool, s: State)
    requires Inv(capacity, peak, s) && s.waiting > 0
    ensures var (t, r) := Step(capacity, peak, Wake(created, activated), s);
            (r == Waits <==> s.size == peak) && (r == Waits ==> t == s) &&
            (r.Got? <==> s.size < peak && created && activated) && (r.Got? ==> r.item == s.next && t.lent == s.lent + {r.item}) &&
            (r != Waits ==> t.waiting == s.waiting - 1 && t.pool == s.pool)
    ensures Step(capacity, peak, TimeOut, s) == (s.(waiting := s.waiting - 1), Null)
  {
  }
}
