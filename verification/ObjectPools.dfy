/** The object pool as it is built: shared/include/Poco/ObjectPool.h. */
module ObjectPools {
  import opened PoolRuns

  class ObjectPool {
    const capacity: nat
    const peakCapacity: nat
    var size: nat
    var pool: seq<nat>
    // the borrowers' side
    ghost var lent: set<nat>
    ghost var lost: nat
    ghost var waiting: nat
    var next: nat

    ghost function Abs(): State
      reads this
    {
      State(pool, size, lent, lost, next, waiting)
    }

    ghost predicate Valid()
      reads this
    {
      capacity <= peakCapacity && Inv(capacity, peakCapacity, Abs())
    }

    constructor (capacity: nat, peakCapacity: nat)
      requires capacity <= peakCapacity
      ensures Valid() && Abs() == INIT && this.capacity == capacity && this.peakCapacity == peakCapacity
    {
      this.capacity, this.peakCapacity, size, pool := capacity, peakCapacity, 0, [];
      lent, lost, waiting, next := {}, 0, 0, 0;
    }

    /** createObject, then activateObject, which destroys the object when activation fails. */
    method CreateObject(created: bool, activated: bool) returns (r: Result)
      requires size < peakCapacity
      modifies this`size, this`lent, this`next
      ensures (Abs(), r) == Create(old(Abs()), created, activated)
    {
      if !created {
        return Threw;
      }
      var o := next;
      next := next + 1;
      if !activated {
        return Threw;
      }
      size := size + 1;
      lent := lent + {o};
      r := Got(o);
    }

    /** borrowObject up to its first return or wait. */
    method BorrowObject(timeoutMilliseconds: int, created: bool, activated: bool) returns (r: Result)
      requires Valid()
      modifies this
      ensures Valid()
      ensures (Abs(), r) == Step(capacity, peakCapacity, Borrow(timeoutMilliseconds == 0, created, activated), old(Abs()))
      ensures created && activated ==> (r.Got? <==> PoolRuns.Available(peakCapacity, old(Abs())) > 0)
      ensures r.Got? ==> PoolRuns.Available(peakCapacity, Abs()) == PoolRuns.Available(peakCapacity, old(Abs())) - 1
    {
      hide Inv;
      InvBounds(capacity, peakCapacity, Abs());
      StepKeepsInv(capacity, peakCapacity, Borrow(timeoutMilliseconds == 0, created, activated), Abs());
      if pool != [] {
        var o := pool[|pool| - 1];
        pool := pool[..|pool| - 1];
        if !activated {
          lost := lost + 1;
          return Threw;
        }
        lent := lent + {o};
        return Got(o);
      }
      if size >= peakCapacity {
        if timeoutMilliseconds == 0 {
          return Null;
        }
        waiting := waiting + 1;
        return Waits;
      }
      r := CreateObject(created, activated);
    }

    /** A borrower behind tryWait: on a timeout it gives up, otherwise it looks at the size again. */
    method Resume(signalled: bool, created: bool, activated: bool) returns (r: Result)
      requires Valid() && waiting > 0
      modifies this
      ensures Valid()
      ensures (Abs(), r) == Step(capacity, peakCapacity, if signalled then Wake(created, activated) else TimeOut, old(Abs()))
    {
      hide Inv;
      StepKeepsInv(capacity, peakCapacity, if signalled then Wake(created, activated) else TimeOut, Abs());
      if !signalled {
        waiting := waiting - 1;
        return Null;
      }
      if size >= peakCapacity {
        return Waits;
      }
      waiting := waiting - 1;
      r := CreateObject(created, activated);
    }

    /** Only a destroyed object signals the waiting borrowers. */
    method ReturnObject(o: nat, valid: bool) returns (r: Result, ghost signalled: bool)
      requires Valid() && o in lent
      modifies this
      ensures Valid() && (Abs(), r) == Step(capacity, peakCapacity, Return(o, valid), old(Abs()))
      ensures signalled <==> r == Destroyed
      ensures PoolRuns.Available(peakCapacity, Abs()) == PoolRuns.Available(peakCapacity, old(Abs())) + 1
    {
      hide Inv;
      InvLent(capacity, peakCapacity, Abs());
      StepKeepsInv(capacity, peakCapacity, Return(o, valid), Abs());
      lent := lent - {o};
      if valid && |pool| < capacity {
        pool := pool + [o];
        return Kept, false;
      }
      size := size - 1;
      r, signalled := Destroyed, true;
    }

    method Available() returns (n: nat)
      requires Valid()
      ensures n == PoolRuns.Available(peakCapacity, Abs())
    {
      n := |pool| + peakCapacity - size;
    }
  }
}
