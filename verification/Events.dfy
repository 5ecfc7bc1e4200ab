/** Events and their delegates: shared/include/Poco/AbstractEvent.h with DefaultStrategy.h and Delegate.h. */
module Events {

  /** A receiver object and one of its methods. */
  datatype Target = Target(receiver: nat, action: nat)

  /** What callbacks and other threads may do to an event; a handle is the number of the delegate added. */
  datatype Op = Add(target: Target) | RemoveEqual(target: Target) | RemoveHandle(handle: nat) | Clear
              | Enable | Disable

  // ----- the registrations on values -----------------------------------------------------------

  datatype Registration = Registration(id: nat, target: Target)

  datatype State = State(registered: seq<Registration>, next: nat, enabled: bool)

  function IndexOfTarget(s: seq<Registration>, t: Target): (i: nat)
    ensures i <= |s| && (i < |s| ==> s[i].target == t) && forall j :: 0 <= j < i ==> s[j].target != t
  {
    if s == [] || s[0].target == t then 0 else 1 + IndexOfTarget(s[1..], t)
  }

  function IndexOfId(s: seq<Registration>, id: nat): (i: nat)
    ensures i <= |s| && (i < |s| ==> s[i].id == id) && forall j :: 0 <= j < i ==> s[j].id != id
  {
    if s == [] || s[0].id == id then 0 else 1 + IndexOfId(s[1..], id)
  }

  function RemoveIndex<T>(s: seq<T>, i: nat): seq<T> {
    if i < |s| then s[..i] + s[i + 1..] else s
  }

  function Apply(op: Op, s: State): State {
    match op
    case Add(t) => s.(registered := s.registered + [Registration(s.next, t)], next := s.next + 1)
    case RemoveEqual(t) => s.(registered := RemoveIndex(s.registered, IndexOfTarget(s.registered, t)))
    case RemoveHandle(h) => s.(registered := RemoveIndex(s.registered, IndexOfId(s.registered, h)))
    case Clear => s.(registered := [])
    case Enable => s.(enabled := true)
    case Disable => s.(enabled := false)
  }

  function ApplyAll(ops: seq<Op>, s: State): State {
    if ops == [] then s else ApplyAll(ops[1..], Apply(ops[0], s))
  }

  /** The state at a turn: ops(i) happens after turn i - 1 has begun and before turn i. */
  function AtTurn(i: nat, ops: nat -> seq<Op>, s: State): State {
    ApplyAll(ops(i), if i == 0 then s else AtTurn(i - 1, ops, s))
  }

  /** Delegates are numbered as they are added, and stand in that order. */
  ghost predicate AscendingIds(s: seq<Registration>, next: nat) {
    (forall i :: 0 <= i < |s| ==> s[i].id < next) &&
    (forall i, j :: 0 <= i < j < |s| ==> s[i].id < s[j].id)
  }

  ghost predicate WellFormed(s: State) {
    AscendingIds(s.registered, s.next)
  }

  lemma RemoveIndexKeepsIds(s: seq<Registration>, next: nat, i: nat)
    requires AscendingIds(s, next)
    ensures AscendingIds(RemoveIndex(s, i), next) && forall x :: x in RemoveIndex(s, i) ==> x in s
  {
    var r := RemoveIndex(s, i);
    assert forall j :: 0 <= j < |r| ==> r[j] == s[if j < i then j else j + 1];
  }

  lemma ApplyKeepsWellFormed(op: Op, s: State)
    requires WellFormed(s)
    ensures WellFormed(Apply(op, s)) && Apply(op, s).next >= s.next
    ensures forall r :: r in Apply(op, s).registered ==> r in s.registered || r.id >= s.next
  {
    hide RemoveIndex, IndexOfTarget, IndexOfId;
    match op {
      case RemoveEqual(t) =>
        hide AscendingIds;
        RemoveIndexKeepsIds(s.registered, s.next, IndexOfTarget(s.registered, t));
      case RemoveHandle(h) =>
        hide AscendingIds;
        RemoveIndexKeepsIds(s.registered, s.next, IndexOfId(s.registered, h));
      case _ =>
    }
  }

  lemma {:induction false} ApplyAllKeepsWellFormed(ops: seq<Op>, s: State)
    requires WellFormed(s)
    ensures WellFormed(ApplyAll(ops, s)) && ApplyAll(ops, s).next >= s.next
    ensures forall r :: r in ApplyAll(ops, s).registered ==> r in s.registered || r.id >= s.next
  {
    hide Apply, WellFormed;
    if ops == [] {
    } else {
      ApplyKeepsWellFormed(ops[0], s);
      ApplyAllKeepsWellFormed(ops[1..], Apply(ops[0], s));
    }
  }

  /** A delegate that is gone does not come back: adding it again makes a new one. */
  lemma RemovedStaysRemoved(r: Registration, ops: seq<Op>, s: State)
    requires WellFormed(s) && r.id < s.next && r !in s.registered
    ensures r !in ApplyAll(ops, s).registered
  {
    ApplyAllKeepsWellFormed(ops, s);
  }

  lemma {:induction false} AtTurnKeepsWellFormed(i: nat, ops: nat -> seq<Op>, s: State)
    requires WellFormed(s)
    ensures WellFormed(AtTurn(i, ops, s)) && AtTurn(i, ops, s).next >= s.next
    ensures forall r :: r in AtTurn(i, ops, s).registered ==> r in s.registered || r.id >= s.next
  {
    hide WellFormed;
    if i == 0 {
      ApplyAllKeepsWellFormed(ops(i), s);
    } else {
      AtTurnKeepsWellFormed(i - 1, ops, s);
      ApplyAllKeepsWellFormed(ops(i), AtTurn(i - 1, ops, s));
    }
  }

  /** The positions of the snapshot whose delegates are invoked, in order. */
  ghost function Positions(n: nat, snapshot: seq<Registration>, ops: nat -> seq<Op>, s: State): seq<nat>
    requires n <= |snapshot|
  {
    if n == 0 then []
    else Positions(n - 1, snapshot, ops, s) + if snapshot[n - 1] in AtTurn(n - 1, ops, s).registered then [n - 1] else []
  }

  lemma {:induction false} PositionsAscend(n: nat, snapshot: seq<Registration>, ops: nat -> seq<Op>, s: State)
    requires n <= |snapshot|
    ensures var p := Positions(n, snapshot, ops, s);
            (forall k :: 0 <= k < |p| ==> p[k] < n) && (forall j, k :: 0 <= j < k < |p| ==> p[j] < p[k]) &&
            (forall i :: 0 <= i < n ==> (i in p <==> snapshot[i] in AtTurn(i, ops, s).registered))
  {
    hide AtTurn;
    if n == 0 {
    } else {
      PositionsAscend(n - 1, snapshot, ops, s);
    }
  }

  function Pick(snapshot: seq<Registration>, positions: seq<nat>): (picked: seq<Registration>)
    requires forall k :: 0 <= k < |positions| ==> positions[k] < |snapshot|
    ensures |picked| == |positions|
  {
    seq(|positions|, k requires 0 <= k < |positions| => snapshot[positions[k]])
  }

  /** What the first n turns invoke: the delegate of a turn when it is still registered then. */
  ghost function Invoked(n: nat, snapshot: seq<Registration>, ops: nat -> seq<Op>, s: State): seq<Registration>
    requires n <= |snapshot|
  {
    if n == 0 then []
    else Invoked(n - 1, snapshot, ops, s) +
         if snapshot[n - 1] in AtTurn(n - 1, ops, s).registered then [snapshot[n - 1]] else []
  }

  lemma {:induction false} InvokedArePicked(n: nat, snapshot: seq<Registration>, ops: nat -> seq<Op>, s: State)
    requires n <= |snapshot|
    ensures var p := Positions(n, snapshot, ops, s);
            (forall k :: 0 <= k < |p| ==> p[k] < |snapshot|) && Invoked(n, snapshot, ops, s) == Pick(snapshot, p)
  {
    hide AtTurn;
    if n == 0 {
      assert Pick(snapshot, []) == [];
    } else {
      InvokedArePicked(n - 1, snapshot, ops, s);
      PickNext(snapshot, Positions(n - 1, snapshot, ops, s), n - 1);
    }
  }

  lemma PickNext(snapshot: seq<Registration>, p: seq<nat>, i: nat)
    requires i < |snapshot| && forall k :: 0 <= k < |p| ==> p[k] < |snapshot|
    ensures Pick(snapshot, p + [i]) == Pick(snapshot, p) + [snapshot[i]]
    ensures Pick(snapshot, p + []) == Pick(snapshot, p)
  {
    assert p + [] == p;
  }

  /** During the first n turns of a notification, whatever is added, removed or cleared meanwhile: exactly
      the delegates of the snapshot that are still registered at their turn are invoked, each once and in
      registration order. */
  lemma NotifyInvokesSurvivors(n: nat, ops: nat -> seq<Op>, s: State)
    requires WellFormed(s) && n <= |s.registered|
    ensures var p := Positions(n, s.registered, ops, s);
            (forall k :: 0 <= k < |p| ==> p[k] < n) &&
            (forall j, k :: 0 <= j < k < |p| ==> p[j] < p[k]) &&
            (forall i :: 0 <= i < n ==> (i in p <==> s.registered[i] in AtTurn(i, ops, s).registered)) &&
            Invoked(n, s.registered, ops, s) == Pick(s.registered, p)
    ensures var called := Invoked(n, s.registered, ops, s);
            forall j, k :: 0 <= j < k < |called| ==> called[j].id < called[k].id
  {
    hide AtTurn, Invoked;
    PositionsAscend(n, s.registered, ops, s);
    InvokedArePicked(n, s.registered, ops, s);
  }

  /** What an operation does to a registration: it appears when it is added, as the youngest, and disappears
      when the list is cleared, when its handle is given, or when it is the oldest with the target given.
      Since the list is in the order of the numbers, this tells the whole of it. */
  lemma ApplyEffect(op: Op, s: State, r: Registration)
    requires WellFormed(s)
    ensures var t := Apply(op, s);
            (r in t.registered <==>
              (r in s.registered && !Removes(op, s, r)) || (op.Add? && r == Registration(s.next, op.target))) &&
            WellFormed(t) && t.next == s.next + (if op.Add? then 1 else 0)
    ensures Apply(op, s).enabled <==> op == Enable || (s.enabled && op != Disable)
  {
    hide RemoveIndex, IndexOfTarget, IndexOfId;
    ApplyKeepsWellFormed(op, s);
    match op {
      case RemoveEqual(t) => RemoveIndexEffect(s, IndexOfTarget(s.registered, t), r);
      case RemoveHandle(h) => RemoveIndexEffect(s, IndexOfId(s.registered, h), r);
      case _ =>
    }
  }

  ghost predicate Removes(op: Op, s: State, r: Registration) {
    match op
    case RemoveEqual(t) => r.target == t && forall q :: q in s.registered && q.target == t ==> r.id <= q.id
    case RemoveHandle(h) => r.id == h
    case Clear => true
    case _ => false
  }

  lemma RemoveIndexEffect(s: State, i: nat, r: Registration)
    requires WellFormed(s)
    ensures r in RemoveIndex(s.registered, i) <==>
      r in s.registered && !(i < |s.registered| && r == s.registered[i])
  {
    if i < |s.registered| && r in s.registered && r != s.registered[i] {
      var j :| 0 <= j < |s.registered| && s.registered[j] == r;
      assert RemoveIndex(s.registered, i)[if j < i then j else j - 1] == r;
    }
  }

  function Nothing(i: nat): seq<Op> {
    []
  }

  /** Two delegates added one after the other are told in that order. */
  lemma FirstAddedIsFirstTold(a: Target, b: Target)
    ensures var s := Apply(Add(b), Apply(Add(a), State([], 0, true)));
            WellFormed(s) && |s.registered| == 2 &&
            Invoked(2, s.registered, Nothing, s) == [Registration(0, a), Registration(1, b)]
  {
    var s := Apply(Add(b), Apply(Add(a), State([], 0, true)));
    NobodyMeddles(s, 2);
  }

  lemma {:induction false} NobodyMeddles(s: State, n: nat)
    requires n <= |s.registered|
    ensures Invoked(n, s.registered, Nothing, s) == s.registered[..n]
  {
    if n == 0 {
    } else {
      NobodyMeddles(s, n - 1);
      StaysAsItIs(s, n - 1);
      assert s.registered[..n] == s.registered[..n - 1] + [s.registered[n - 1]];
    }
  }

  lemma {:induction false} StaysAsItIs(s: State, i: nat)
    ensures AtTurn(i, Nothing, s) == s
  {
    if i == 0 {
    } else {
      StaysAsItIs(s, i - 1);
    }
  }

  /** What is registered at a turn and was not in the snapshot has been added since and is not invoked. */
  lemma LateDelegatesAreNotInvoked(n: nat, ops: nat -> seq<Op>, s: State, i: nat, r: Registration)
    requires WellFormed(s) && n <= |s.registered|
    requires r in AtTurn(i, ops, s).registered && r !in s.registered
    ensures r.id >= s.next && r !in Invoked(n, s.registered, ops, s)
  {
    hide AtTurn;
    AtTurnKeepsWellFormed(i, ops, s);
    NotifyInvokesSurvivors(n, ops, s);
  }

  // ----- callbacks that throw ------------------------------------------------------------------

  /** The delegate of turn i is invoked and its callback throws. */
  ghost predicate ThrowsAt(
    i: nat, snapshot: seq<Registration>, ops: nat -> seq<Op>, throws: nat -> bool, s: State)
    requires i < |snapshot|
  {
    throws(i) && snapshot[i] in AtTurn(i, ops, s).registered
  }

  /** A notification ends with the first turn that throws or else with the last turn. */
  ghost predicate EndsAfter(
    n: nat, thrown: bool, snapshot: seq<Registration>, ops: nat -> seq<Op>, throws: nat -> bool, s: State)
  {
    n <= |snapshot| &&
    (forall i: nat :: i < n && ThrowsAt(i, snapshot, ops, throws, s) ==> thrown && i == n - 1) &&
    (if thrown then n > 0 && ThrowsAt(n - 1, snapshot, ops, throws, s) else n == |snapshot|)
  }

  lemma EndsOnce(
    m: nat, a: bool, n: nat, b: bool, snapshot: seq<Registration>, ops: nat -> seq<Op>, throws: nat -> bool, s: State)
    requires EndsAfter(m, a, snapshot, ops, throws, s) && EndsAfter(n, b, snapshot, ops, throws, s)
    ensures m == n && a == b
  {
    hide AtTurn;
  }

  /** What n turns leave of the event. */
  function StateAfter(n: nat, ops: nat -> seq<Op>, s: State): State {
    if n == 0 then s else AtTurn(n - 1, ops, s)
  }

  /** After a callback that throws nobody else is told, and the exception is passed on. */
  lemma NobodyAfterThrow(
    n: nat, thrown: bool, i: nat, snapshot: seq<Registration>, ops: nat -> seq<Op>, throws: nat -> bool, s: State)
    requires EndsAfter(n, thrown, snapshot, ops, throws, s) && i < |snapshot|
    requires throws(i) && snapshot[i] in AtTurn(i, ops, s).registered
    ensures n <= i + 1 && thrown
  {
    hide AtTurn;
    assert ThrowsAt(i, snapshot, ops, throws, s);
  }

  /** Where the loop stands in front of turn i. */
  ghost predicate Reached(
    i: nat, called: seq<Registration>, now: State, ops: nat -> seq<Op>, throws: nat -> bool, s: State)
  {
    i <= |s.registered| && now == StateAfter(i, ops, s) &&
    called == Invoked(i, s.registered, ops, s) &&
    forall k: nat :: k < i ==> !ThrowsAt(k, s.registered, ops, throws, s)
  }

  lemma NothingReached(ops: nat -> seq<Op>, throws: nat -> bool, s: State)
    ensures Reached(0, [], s, ops, throws, s)
  {
  }

  lemma TurnReaches(
    i: nat, called: seq<Registration>, now: State, turn: seq<Registration>,
    ops: nat -> seq<Op>, throws: nat -> bool, s: State)
    requires Reached(i, called, now, ops, throws, s) && i < |s.registered|
    requires turn == if s.registered[i] in ApplyAll(ops(i), now).registered then [s.registered[i]] else []
    ensures called + turn == Invoked(i + 1, s.registered, ops, s)
    ensures ApplyAll(ops(i), now) == StateAfter(i + 1, ops, s)
    ensures if turn != [] && throws(i) then EndsAfter(i + 1, true, s.registered, ops, throws, s)
            else Reached(i + 1, called + turn, ApplyAll(ops(i), now), ops, throws, s)
  {
    hide ApplyAll;
    assert AtTurn(i, ops, s) == ApplyAll(ops(i), now);
  }

  lemma LastTurnReached(called: seq<Registration>, now: State, ops: nat -> seq<Op>, throws: nat -> bool, s: State)
    requires Reached(|s.registered|, called, now, ops, throws, s)
    ensures EndsAfter(|s.registered|, false, s.registered, ops, throws, s)
    ensures called == Invoked(|s.registered|, s.registered, ops, s)
    ensures now == StateAfter(|s.registered|, ops, s)
  {
    hide AtTurn;
  }
}
