/** Events as they are built: shared delegate objects in a vector that a notification copies. */
module BasicEvents {
  import opened Collections
  import opened Events

  /** disable() clears the receiver, after which notify() does nothing and equals() is false. */
  class Delegate {
    const id: nat
    const target: Target
    var active: bool

    constructor (id: nat, target: Target)
      ensures this.id == id && this.target == target && active
    {
      this.id, this.target, active := id, target, true;
    }

    method Notify() returns (called: bool)
      ensures called == active
    {
      called := active;
    }

    method Disable()
      modifies this
      ensures !active
    {
      active := false;
    }
  }

  function Registrations(delegates: seq<Delegate>): (r: seq<Registration>)
    ensures |r| == |delegates|
    ensures forall i :: 0 <= i < |r| ==> r[i] == Registration(delegates[i].id, delegates[i].target)
  {
    seq(|delegates|, i requires 0 <= i < |delegates| => Registration(delegates[i].id, delegates[i].target))
  }

  lemma DelegatesDistinct(delegates: seq<Delegate>, next: nat)
    requires AscendingIds(Registrations(delegates), next)
    ensures NoDuplicates(delegates)
  {
    forall i, j | 0 <= i < j < |delegates|
      ensures delegates[i] != delegates[j]
    {
      assert Registrations(delegates)[i].id != Registrations(delegates)[j].id;
    }
  }

  lemma RemoveIndexMembers(delegates: seq<Delegate>, i: nat)
    requires i < |delegates| && NoDuplicates(delegates)
    ensures forall d :: d in RemoveIndex(delegates, i) <==> d in delegates && d != delegates[i]
  {
    var r := RemoveIndex(delegates, i);
    forall d | d in delegates && d != delegates[i]
      ensures d in r
    {
      var j :| 0 <= j < |delegates| && delegates[j] == d;
      assert r[if j < i then j else j - 1] == d;
    }
  }

  lemma RemoveIndexRegistrations(delegates: seq<Delegate>, i: nat)
    requires i < |delegates|
    ensures Registrations(RemoveIndex(delegates, i)) == RemoveIndex(Registrations(delegates), i)
  {
  }

  class BasicEvent {
    var delegates: seq<Delegate>
    var enabled: bool
    var next: nat
    ghost var issued: set<Delegate>

    /** A delegate ever added can be notified exactly while it is registered, wherever it is shared. */
    ghost predicate Valid()
      reads this, issued
    {
      (forall d :: d in issued ==> d.id < next && (d.active <==> d in delegates)) &&
      (forall d, e :: d in issued && e in issued && d.id == e.id ==> d == e) &&
      (forall d :: d in delegates ==> d in issued) &&
      WellFormed(Abs())
    }

    ghost function Abs(): State
      reads this
    {
      State(Registrations(delegates), next, enabled)
    }

    constructor ()
      ensures Valid() && Abs() == State([], 0, true) && fresh(issued)
    {
      delegates, enabled, next, issued := [], true, 0, {};
    }

    /** add(): a clone of the delegate goes to the end; its number is the handle. */
    method AddDelegate(t: Target) returns (handle: nat)
      requires Valid()
      modifies this, issued
      ensures Valid() && fresh(issued - old(issued)) && old(issued) <= issued
      ensures Abs() == Apply(Add(t), old(Abs())) && handle == old(next)
    {
      ApplyKeepsWellFormed(Add(t), Abs());
      handle := next;
      var d := new Delegate(next, t);
      delegates := delegates + [d];
      next := next + 1;
      issued := issued + {d};
      assert Registrations(delegates) == Registrations(old(delegates)) + [Registration(d.id, t)];
    }

    /** disable() and vector::erase */
    method EraseAt(i: nat)
      requires Valid() && i < |delegates|
      modifies this`delegates, issued
      ensures Valid() && Abs() == old(Abs()).(registered := RemoveIndex(old(Abs().registered), i))
    {
      hide RemoveIndex;
      DelegatesDistinct(delegates, next);
      RemoveIndexKeepsIds(Registrations(delegates), next, i);
      RemoveIndexRegistrations(delegates, i);
      ghost var before, d := delegates, delegates[i];
      delegates[i].Disable();
      delegates := RemoveIndex(delegates, i);
      RemoveIndexMembers(before, i);
      assert forall e :: e in delegates <==> e in before && e != d;
    }

    /** remove(const TDelegate&): the first delegate that is equal. */
    method RemoveByTarget(t: Target)
      requires Valid()
      modifies this, issued
      ensures Valid() && issued == old(issued) && Abs() == Apply(RemoveEqual(t), old(Abs()))
    {
      hide WellFormed, IndexOfTarget;
      var i := PositionOfTarget(t);
      if i < |delegates| {
        EraseAt(i);
      }
    }

    /** The search of remove(const TDelegate&): every delegate in the vector is active. */
    method PositionOfTarget(t: Target) returns (i: nat)
      requires Valid()
      ensures i == IndexOfTarget(Abs().registered, t)
    {
      hide WellFormed;
      i := 0;
      while i < |delegates| && !(delegates[i].active && delegates[i].target == t)
        invariant i <= |delegates|
        invariant forall j :: 0 <= j < i ==> delegates[j].target != t
      {
        i := i + 1;
      }
      assert Abs().registered == Registrations(delegates);
    }

    /** remove(DelegateHandle) */
    method RemoveByHandle(handle: nat)
      requires Valid()
      modifies this, issued
      ensures Valid() && issued == old(issued) && Abs() == Apply(RemoveHandle(handle), old(Abs()))
    {
      hide WellFormed, IndexOfId;
      var i := PositionOfHandle(handle);
      if i < |delegates| {
        EraseAt(i);
      }
    }

    /** The search of remove(DelegateHandle). */
    method PositionOfHandle(handle: nat) returns (i: nat)
      ensures i == IndexOfId(Abs().registered, handle)
    {
      i := 0;
      while i < |delegates| && delegates[i].id != handle
        invariant i <= |delegates|
        invariant forall j :: 0 <= j < i ==> delegates[j].id != handle
      {
        i := i + 1;
      }
      assert Abs().registered == Registrations(delegates);
    }

    method ClearDelegates()
      requires Valid()
      modifies this, issued
      ensures Valid() && issued == old(issued) && Abs() == Apply(Clear, old(Abs()))
    {
      var i := 0;
      while i < |delegates|
        invariant i <= |delegates|
        invariant forall d :: d in issued ==> (d.active ==> d in delegates) && (d in delegates[..i] ==> !d.active)
        modifies issued
      {
        assert delegates[..i + 1] == delegates[..i] + [delegates[i]];
        delegates[i].Disable();
        i := i + 1;
      }
      assert delegates[..i] == delegates;
      delegates := [];
    }

    method Perform(op: Op)
      requires Valid()
      modifies this, issued
      ensures Valid() && fresh(issued - old(issued)) && old(issued) <= issued
      ensures Abs() == Apply(op, old(Abs()))
    {
      match op {
        case Add(t) => var h := AddDelegate(t);
        case RemoveEqual(t) => RemoveByTarget(t);
        case RemoveHandle(h) => RemoveByHandle(h);
        case Clear => ClearDelegates();
        case Enable => enabled := true;
        case Disable => enabled := false;
      }
    }

    method PerformAll(ops: seq<Op>)
      requires Valid()
      modifies this, issued
      ensures Valid() && fresh(issued - old(issued)) && old(issued) <= issued
      ensures Abs() == ApplyAll(ops, old(Abs()))
    {
      hide Apply, WellFormed;
      if ops != [] {
        Perform(ops[0]);
        PerformAll(ops[1..]);
      }
    }

    /** notify(): copies the vector, releases the lock and notifies the copy. ops stands for what the
        callbacks and other threads do before each turn, throws for the callbacks that throw. */
    method Notify(ops: nat -> seq<Op>, throws: nat -> bool)
        returns (called: seq<Registration>, thrown: bool, ghost turns: nat)
      requires Valid()
      modifies this, issued
      ensures Valid() && fresh(issued - old(issued)) && old(issued) <= issued
      ensures !old(enabled) ==> called == [] && !thrown && Abs() == old(Abs())
      ensures old(enabled) ==>
        EndsAfter(turns, thrown, old(Abs().registered), ops, throws, old(Abs())) &&
        called == Invoked(turns, old(Abs().registered), ops, old(Abs())) &&
        Abs() == StateAfter(turns, ops, old(Abs()))
      ensures forall j, k :: 0 <= j < k < |called| ==> called[j].id < called[k].id
    {
      called, thrown, turns := [], false, 0;
      if !enabled {
        return;
      }
      hide ApplyAll, WellFormed, Registrations, Reached, Invoked, AtTurn, StateAfter;
      var strategy := delegates;
      ghost var s, first := Abs(), issued;
      NothingReached(ops, throws, s);
      var it := 0;
      while it < |strategy|
        invariant it <= |strategy| == |s.registered| && turns == it && Valid()
        invariant first <= issued && fresh(issued - old(issued))
        invariant Reached(it, called, Abs(), ops, throws, s)
        modifies this, issued
      {
        ghost var before := Abs();
        var turn := Turn(strategy[it], ops(it));
        TurnReaches(it, called, before, turn, ops, throws, s);
        called := called + turn;
        turns := it + 1;
        if turn != [] && throws(it) {
          thrown := true;
          NotifyInvokesSurvivors(turns, ops, s);
          return;
        }
        it := it + 1;
      }
      LastTurnReached(called, Abs(), ops, throws, s);
      NotifyInvokesSurvivors(turns, ops, s);
    }

    /** One turn of the loop: the delegate is told if nobody has disabled it by then. */
    method Turn(d: Delegate, ops: seq<Op>) returns (called: seq<Registration>)
      requires Valid() && d in issued
      modifies this, issued
      ensures Valid() && fresh(issued - old(issued)) && old(issued) <= issued
      ensures Abs() == ApplyAll(ops, old(Abs()))
      ensures called == if Registration(d.id, d.target) in Abs().registered then [Registration(d.id, d.target)] else []
    {
      hide ApplyAll, WellFormed;
      PerformAll(ops);
      StillRegistered(d);
      var ok := d.Notify();
      called := if ok then [Registration(d.id, d.target)] else [];
    }

    lemma StillRegistered(d: Delegate)
      requires Valid() && d in issued
      ensures d.active <==> Registration(d.id, d.target) in Abs().registered
    {
      if Registration(d.id, d.target) in Abs().registered {
        var i :| 0 <= i < |delegates| && Abs().registered[i] == Registration(d.id, d.target);
        assert delegates[i] in issued;
      }
      if d in delegates {
        var i :| 0 <= i < |delegates| && delegates[i] == d;
        assert Abs().registered[i] == Registration(d.id, d.target);
      }
    }
  }

  lemma EnabledTellsOne(
    s: State, called: seq<Registration>, turns: nat, thrown: bool, throws: nat -> bool, t: Target)
    requires s == State([Registration(0, t)], 1, true)
    requires EndsAfter(turns, thrown, s.registered, Nothing, throws, s) && !throws(0)
    requires called == Invoked(turns, s.registered, Nothing, s)
    ensures called == [Registration(0, t)]
  {
    hide AtTurn, Invoked;
    NobodyMeddles(s, turns);
  }

  /** A disabled event tells nobody; enabled again, it tells the delegates it has. */
  method DisabledEventIsSilent(t: Target) returns (silent: seq<Registration>, told: seq<Registration>)
    ensures silent == [] && told == [Registration(0, t)]
  {
    hide AtTurn, Invoked, WellFormed, EndsAfter, ApplyAll, Registrations;
    var event := new BasicEvent();
    var handle := event.AddDelegate(t);
    event.Perform(Disable);
    var thrown;
    ghost var turns;
    silent, thrown, turns := event.Notify(Nothing, _ => false);
    event.Perform(Enable);
    ghost var s := event.Abs();
    var throws := (i: nat) => false;
    told, thrown, turns := event.Notify(Nothing, throws);
    EnabledTellsOne(s, told, turns, thrown, throws, t);
  }
}
