/** AutoPtrs inside the objects they own: assign(const AutoPtr&) of shared/include/Poco/AutoPtr.h on linked
    nodes, where releasing one object destroys the AutoPtr in it and so may release the next. */
module OwningNodes {
  import opened Collections

  /** An AutoPtr stands on its own or is the field of a node. */
  datatype Place = Root(id: nat) | Field(node: nat)

  /** Every AutoPtr alive with the node it points to, and the count of every node alive. fault is raised
      when a deleted node is released or duplicated, or a destroyed AutoPtr is used. */
  datatype State = State(ptrs: map<Place, Option<nat>>, counts: map<nat, nat>, fault: bool)

  const INIT := State(map[], map[], false)

  function Get(m: map<nat, nat>, o: nat): nat {
    if o in m then m[o] else 0
  }

  // ----- the operations ------------------------------------------------------------------------

  /** release(): the last release deletes the node, whose field is destroyed and releases what it points
      to. */
  function Release(s: State, o: nat): State
    decreases |s.counts|
  {
    if o !in s.counts then s.(fault := true)
    else if s.counts[o] > 1 then s.(counts := s.counts[o := s.counts[o] - 1])
    else
      var t := State(s.ptrs - {Field(o)}, s.counts - {o}, s.fault || Field(o) !in s.ptrs);
      assert |t.counts| < |s.counts| by { SmallerMap(s.counts, o); }
      if Field(o) in s.ptrs && s.ptrs[Field(o)].Some? then Release(t, s.ptrs[Field(o)].value) else t
  }

  lemma SmallerMap(m: map<nat, nat>, o: nat)
    requires o in m
    ensures |m - {o}| < |m|
  {
    assert (m - {o}).Keys == m.Keys - {o};
    assert |m.Keys - {o}| == |m.Keys| - 1;
  }

  function ReleaseAt(s: State, p: Place): State
    requires p in s.ptrs
  {
    if s.ptrs[p].None? then s else Release(s, s.ptrs[p].value)
  }

  /** _ptr = ptr._ptr; if (_ptr) _ptr->duplicate(); both AutoPtrs have to be there still. */
  function Copy(s: State, p: Place, q: Place): State {
    if p !in s.ptrs || q !in s.ptrs then s.(fault := true)
    else if s.ptrs[q].None? then s.(ptrs := s.ptrs[p := None])
    else
      var o := s.ptrs[q].value;
      if o !in s.counts then s.(fault := true)
      else s.(ptrs := s.ptrs[p := Some(o)], counts := s.counts[o := s.counts[o] + 1])
  }

  function Assign(s: State, p: Place, q: Place): State
    requires p in s.ptrs && q in s.ptrs
  {
    if p == q then s else Copy(ReleaseAt(s, p), p, q)
  }

  /** A new node whose field is null, held by a new AutoPtr on its own. */
  function Make(s: State, id: nat, o: nat): State {
    s.(ptrs := s.ptrs[Root(id) := Some(o)][Field(o) := None], counts := s.counts[o := 1])
  }

  /** The destructor of an AutoPtr on its own. */
  function Destroy(s: State, id: nat): State
    requires Root(id) in s.ptrs
  {
    var t := ReleaseAt(s, Root(id));
    t.(ptrs := t.ptrs - {Root(id)})
  }

  // ----- counts and owners ---------------------------------------------------------------------

  function Owners(ptrs: map<Place, Option<nat>>, o: nat): set<Place> {
    set p | p in ptrs && ptrs[p] == Some(o)
  }

  ghost predicate FieldsAlive(s: State) {
    forall o: nat :: Field(o) in s.ptrs <==> o in s.counts
  }

  /** A node has as many owners as its count says, not counting the AutoPtr p that is about to change, and one
      more if the node is owed a release. */
  ghost predicate CountedBut(s: State, p: Place, owed: Option<nat>, o: nat) {
    Get(s.counts, o) == |Owners(s.ptrs - {p}, o)| + One(owed == Some(o)) && (o in s.counts ==> s.counts[o] > 0)
  }

  ghost predicate Owed(s: State, p: Place, owed: Option<nat>) {
    FieldsAlive(s) && !s.fault && forall o: nat :: CountedBut(s, p, owed, o)
  }

  ghost predicate Counted(s: State, o: nat) {
    Get(s.counts, o) == |Owners(s.ptrs, o)| && (o in s.counts ==> s.counts[o] > 0)
  }

  /** A node is alive exactly while it has owners, and its count is their number. */
  ghost predicate Inv(s: State) {
    FieldsAlive(s) && !s.fault && forall o: nat :: Counted(s, o)
  }

  lemma OwnersWithout(ptrs: map<Place, Option<nat>>, p: Place, o: nat)
    ensures |Owners(ptrs - {p}, o)| == |Owners(ptrs, o)| - One(p in ptrs && ptrs[p] == Some(o))
  {
    var before, after := Owners(ptrs, o), Owners(ptrs - {p}, o);
    if p in before {
      assert after == before - {p};
    } else {
      assert after == before;
    }
  }

  lemma OwnersWith(ptrs: map<Place, Option<nat>>, p: Place, v: Option<nat>, o: nat)
    ensures |Owners(ptrs[p := v], o)| == |Owners(ptrs - {p}, o)| + One(v == Some(o))
  {
    OwnersWithout(ptrs[p := v], p, o);
    assert ptrs[p := v] - {p} == ptrs - {p};
  }

  lemma SetAside(s: State, p: Place)
    requires Inv(s) && p in s.ptrs
    ensures Owed(s, p, s.ptrs[p])
  {
    forall o: nat
      ensures CountedBut(s, p, s.ptrs[p], o)
    {
      assert Counted(s, o);
      OwnersWithout(s.ptrs, p, o);
    }
  }

  // ----- what a release deletes ----------------------------------------------------------------

  /** The nodes that a release of o deletes: those on the chain from o on, up to the first that has another
      owner. */
  function Doomed(ptrs: map<Place, Option<nat>>, counts: map<nat, nat>, o: nat): set<nat>
    decreases |counts|
  {
    if o !in counts || counts[o] > 1 then {}
    else
      assert |counts - {o}| < |counts| by { SmallerMap(counts, o); }
      {o} + if Field(o) in ptrs && ptrs[Field(o)].Some? then Doomed(ptrs, counts - {o}, ptrs[Field(o)].value) else {}
  }

  function FieldsOf(nodes: set<nat>): set<Place> {
    set o | o in nodes :: Field(o)
  }

  /** The AutoPtr lies in one of the nodes. */
  predicate LiesIn(p: Place, nodes: set<nat>) {
    p.Field? && p.node in nodes
  }

  lemma {:induction false} DoomedFrame(
    ptrs: map<Place, Option<nat>>, counts: map<nat, nat>, o: nat, dead: nat)
    requires dead !in counts
    ensures Doomed(ptrs - {Field(dead)}, counts, o) == Doomed(ptrs, counts, o)
    decreases |counts|
  {
    if o !in counts || counts[o] > 1 {
    } else {
      SmallerMap(counts, o);
      if Field(o) in ptrs && ptrs[Field(o)].Some? {
        DoomedFrame(ptrs, counts - {o}, ptrs[Field(o)].value, dead);
      }
    }
  }

  /** The node that the AutoPtr p points to is the one being released, or has been deleted since. */
  ghost predicate Dangles(s: State, p: Place, o: nat) {
    p in s.ptrs && s.ptrs[p].Some? && (s.ptrs[p].value == o || s.ptrs[p].value !in s.counts)
  }

  function Deleted(s: State, o: nat): State {
    s.(ptrs := s.ptrs - {Field(o)}, counts := s.counts - {o})
  }

  /** Deleting a node passes the release on to what its field points to. */
  lemma DeleteOwesNext(s: State, p: Place, o: nat)
    requires Owed(s, p, Some(o)) && o in s.counts && s.counts[o] <= 1 && p != Field(o)
    ensures Owed(Deleted(s, o), p, s.ptrs[Field(o)])
  {
    var t, next := Deleted(s, o), s.ptrs[Field(o)];
    forall x: nat
      ensures CountedBut(t, p, next, x)
    {
      assert CountedBut(s, p, Some(o), x);
      assert s.ptrs - {p} - {Field(o)} == t.ptrs - {p};
      OwnersWithout(s.ptrs - {p}, Field(o), x);
    }
  }

  lemma LastStep(s: State, p: Place, o: nat)
    requires Owed(s, p, Some(o)) && o in s.counts && s.counts[o] > 1
    ensures Owed(Release(s, o), p, None)
  {
    var t := Release(s, o);
    forall x: nat
      ensures CountedBut(t, p, None, x)
    {
      assert CountedBut(s, p, Some(o), x);
    }
  }

  /** A release deletes exactly the doomed nodes with their fields and leaves the counts right; it goes wrong
      exactly when the AutoPtr that is about to change lies in one of them. */
  ghost predicate DeletesDoomed(s: State, p: Place, t: State, doomed: set<nat>) {
    if LiesIn(p, doomed) then t.fault
    else Owed(t, p, None) && t.ptrs == s.ptrs - FieldsOf(doomed) && t.counts.Keys == s.counts.Keys - doomed
  }

  lemma {:induction false} ReleaseDeletesDoomed(s: State, p: Place, o: nat)
    requires Owed(s, p, Some(o)) && Dangles(s, p, o)
    ensures DeletesDoomed(s, p, Release(s, o), Doomed(s.ptrs, s.counts, o))
    decreases |s.counts|
  {
    hide Owed, Release, Doomed, DeletesDoomed;
    OwedIsAlive(s, p, o);
    ReleaseOnce(s, o);
    if s.counts[o] > 1 {
      LastStep(s, p, o);
      NothingDeleted(s, p, Release(s, o));
    } else if p == Field(o) {
      ReleaseOfDeleted(Deleted(s, o), s.ptrs[p].value);
      OwnNodeDeleted(s, p, o, Release(s, o), Doomed(s.ptrs, s.counts, o));
    } else {
      SmallerMap(s.counts, o);
      DeleteOwesNext(s, p, o);
      var t, next := Deleted(s, o), s.ptrs[Field(o)];
      if next.None? {
        NothingDeleted(t, p, t);
        MoreDeleted(s, p, o, t, {});
      } else {
        ReleaseDeletesDoomed(t, p, next.value);
        MoreDeleted(s, p, o, Release(t, next.value), Doomed(t.ptrs, t.counts, next.value));
      }
    }
  }

  lemma NothingDeleted(s: State, p: Place, t: State)
    requires Owed(t, p, None) && t.ptrs == s.ptrs && t.counts.Keys == s.counts.Keys
    ensures DeletesDoomed(s, p, t, {})
  {
    hide Owed;
    assert FieldsOf({}) == {};
  }

  lemma OwnNodeDeleted(s: State, p: Place, o: nat, t: State, doomed: set<nat>)
    requires p == Field(o) && o in doomed && t.fault
    ensures DeletesDoomed(s, p, t, doomed)
  {
  }

  lemma MoreDeleted(s: State, p: Place, o: nat, t: State, rest: set<nat>)
    requires p != Field(o) && DeletesDoomed(Deleted(s, o), p, t, rest)
    ensures DeletesDoomed(s, p, t, {o} + rest)
  {
    hide Owed;
    assert Deleted(s, o).ptrs - FieldsOf(rest) == s.ptrs - FieldsOf({o} + rest);
    assert Deleted(s, o).counts.Keys - rest == s.counts.Keys - ({o} + rest);
  }

  /** One release: it lowers the count, or deletes the node and goes on. */
  lemma ReleaseOnce(s: State, o: nat)
    requires o in s.counts && Field(o) in s.ptrs
    ensures s.counts[o] > 1 ==>
      Release(s, o) == s.(counts := s.counts[o := s.counts[o] - 1]) && Doomed(s.ptrs, s.counts, o) == {}
    ensures s.counts[o] <= 1 ==>
      var next, t := s.ptrs[Field(o)], Deleted(s, o);
      Release(s, o) == (if next.None? then t else Release(t, next.value)) &&
      Doomed(s.ptrs, s.counts, o) == {o} + if next.None? then {} else Doomed(t.ptrs, t.counts, next.value)
  {
    if s.counts[o] <= 1 && s.ptrs[Field(o)].Some? {
      DoomedFrame(s.ptrs, s.counts - {o}, s.ptrs[Field(o)].value, o);
    }
  }

  lemma OwedIsAlive(s: State, p: Place, o: nat)
    requires Owed(s, p, Some(o))
    ensures o in s.counts && s.counts[o] > 0 && Field(o) in s.ptrs && !s.fault
  {
    assert CountedBut(s, p, Some(o), o);
  }

  lemma ReleaseOfDeleted(s: State, o: nat)
    requires o !in s.counts
    ensures Release(s, o).fault
  {
  }

  // ----- assignment ----------------------------------------------------------------------------

  function DoomedAt(s: State, p: Place): set<nat>
    requires p in s.ptrs
  {
    if s.ptrs[p].None? then {} else Doomed(s.ptrs, s.counts, s.ptrs[p].value)
  }

  /** The assignment would delete the node in which one of its two AutoPtrs lies. */
  predicate Unsafe(s: State, p: Place, q: Place)
    requires p in s.ptrs && q in s.ptrs
  {
    p != q && (LiesIn(p, DoomedAt(s, p)) || LiesIn(q, DoomedAt(s, p)))
  }

  lemma ReleaseAtDeletesDoomed(s: State, p: Place)
    requires Inv(s) && p in s.ptrs
    ensures DeletesDoomed(s, p, ReleaseAt(s, p), DoomedAt(s, p))
  {
    hide Owed, Inv, Release, Doomed, DeletesDoomed;
    SetAside(s, p);
    if s.ptrs[p].Some? {
      ReleaseDeletesDoomed(s, p, s.ptrs[p].value);
    } else {
      NothingDeleted(s, p, s);
    }
  }

  lemma CopyKeepsInv(s: State, p: Place, q: Place)
    requires Owed(s, p, None) && p in s.ptrs && q in s.ptrs && p != q
    ensures Inv(Copy(s, p, q)) && Copy(s, p, q).ptrs == s.ptrs[p := s.ptrs[q]]
    ensures Copy(s, p, q).counts.Keys == s.counts.Keys
  {
    var v := s.ptrs[q];
    if v.Some? {
      assert CountedBut(s, p, None, v.value);
      assert q in Owners(s.ptrs - {p}, v.value);
    }
    var t := Copy(s, p, q);
    forall o: nat
      ensures Counted(t, o)
    {
      assert CountedBut(s, p, None, o);
      OwnersWith(s.ptrs, p, v, o);
    }
  }

  /** assign(const AutoPtr&) uses a destroyed AutoPtr or a deleted node exactly when it is unsafe. Otherwise
      the AutoPtr points where the other one did, exactly the doomed nodes are gone, and the counts are
      right. */
  lemma AssignFaultsIffUnsafe(s: State, p: Place, q: Place)
    requires Inv(s) && p in s.ptrs && q in s.ptrs
    ensures var t := Assign(s, p, q);
            (t.fault <==> Unsafe(s, p, q)) &&
            (!Unsafe(s, p, q) ==> Inv(t)) &&
            (!Unsafe(s, p, q) && p != q ==>
              t.ptrs == (s.ptrs - FieldsOf(DoomedAt(s, p)))[p := s.ptrs[q]] &&
              t.counts.Keys == s.counts.Keys - DoomedAt(s, p))
  {
    hide Owed, Release, Doomed;
    if p != q {
      ReleaseAtDeletesDoomed(s, p);
      if !Unsafe(s, p, q) {
        CopyKeepsInv(ReleaseAt(s, p), p, q);
      }
    }
  }

  /** Between AutoPtrs that lie in no node an assignment is always safe. */
  lemma RootsAreSafe(s: State, a: nat, b: nat)
    requires Inv(s) && Root(a) in s.ptrs && Root(b) in s.ptrs
    ensures !Assign(s, Root(a), Root(b)).fault
  {
    AssignFaultsIffUnsafe(s, Root(a), Root(b));
  }

  // ----- whole runs ----------------------------------------------------------------------------

  datatype Op = New(id: nat, node: nat) | Set(p: Place, q: Place) | Drop(id: nat)

  predicate Enabled(op: Op, s: State) {
    match op
    case New(id, o) => Root(id) !in s.ptrs && o !in s.counts
    case Set(p, q) => p in s.ptrs && q in s.ptrs
    case Drop(id) => Root(id) in s.ptrs
  }

  function Step(op: Op, s: State): State
    requires Enabled(op, s)
  {
    match op
    case New(id, o) => Make(s, id, o)
    case Set(p, q) => Assign(s, p, q)
    case Drop(id) => Destroy(s, id)
  }

  predicate UnsafeStep(op: Op, s: State)
    requires Enabled(op, s)
  {
    op.Set? && Unsafe(s, op.p, op.q)
  }

  lemma MakeKeepsInv(s: State, id: nat, o: nat)
    requires Inv(s) && Root(id) !in s.ptrs && o !in s.counts
    ensures Inv(Make(s, id, o))
  {
    var t, r, f := Make(s, id, o), Root(id), Field(o);
    assert FieldsAlive(s) && f !in s.ptrs;
    forall x: nat
      ensures Counted(t, x)
    {
      assert Counted(s, x);
      OwnersWith(s.ptrs, r, Some(o), x);
      OwnersWithout(s.ptrs, r, x);
      OwnersWith(s.ptrs[r := Some(o)], f, None, x);
      OwnersWithout(s.ptrs[r := Some(o)], f, x);
    }
  }

  lemma DestroyKeepsInv(s: State, id: nat)
    requires Inv(s) && Root(id) in s.ptrs
    ensures var t, doomed := Destroy(s, id), DoomedAt(s, Root(id));
            Inv(t) && t.ptrs == s.ptrs - FieldsOf(doomed) - {Root(id)} && t.counts.Keys == s.counts.Keys - doomed
  {
    hide Release, Doomed;
    ReleaseAtDeletesDoomed(s, Root(id));
    var t, u := ReleaseAt(s, Root(id)), Destroy(s, id);
    forall x: nat
      ensures Counted(u, x)
    {
      assert CountedBut(t, Root(id), None, x);
    }
  }

  lemma StepFaultsIffUnsafe(op: Op, s: State)
    requires Inv(s) && Enabled(op, s)
    ensures Step(op, s).fault <==> UnsafeStep(op, s)
    ensures !UnsafeStep(op, s) ==> Inv(Step(op, s))
  {
    hide Make, Destroy, Assign, Unsafe;
    match op {
      case New(id, o) => MakeKeepsInv(s, id, o);
      case Set(p, q) => AssignFaultsIffUnsafe(s, p, q);
      case Drop(id) => DestroyKeepsInv(s, id);
    }
  }

  ghost predicate IsRun(states: seq<State>, ops: seq<Op>) {
    |states| == |ops| + 1 && states[0] == INIT &&
    forall i :: 0 <= i < |ops| ==> Enabled(ops[i], states[i]) && states[i + 1] == Step(ops[i], states[i])
  }

  lemma InitHolds()
    ensures Inv(INIT)
  {
    assert forall o: nat :: Owners(map[], o) == {};
  }

  /** A run is free of faults as long as no assignment in it is unsafe, and goes wrong with the first that
      is. */
  lemma {:induction false} RunFaultsIffUnsafe(states: seq<State>, ops: seq<Op>, n: nat)
    requires IsRun(states, ops) && n < |ops| && forall i :: 0 <= i < n ==> !UnsafeStep(ops[i], states[i])
    ensures Inv(states[n]) && (states[n + 1].fault <==> UnsafeStep(ops[n], states[n]))
  {
    hide Inv, Step, Enabled, UnsafeStep;
    if n == 0 {
      InitHolds();
    } else {
      RunFaultsIffUnsafe(states, ops, n - 1);
      StepFaultsIffUnsafe(ops[n - 1], states[n - 1]);
    }
    StepFaultsIffUnsafe(ops[n], states[n]);
  }

  /** A list of two nodes: root 0 holds node 1, whose field holds node 2. */
  ghost function ListOfTwo(): (seq<State>, seq<Op>) {
    var s1 := State(map[Root(0) := Some(1), Field(1) := None], map[1 := 1], false);
    var s2 := State(s1.ptrs[Root(1) := Some(2)][Field(2) := None], map[1 := 1, 2 := 1], false);
    var s3 := State(s2.ptrs[Field(1) := Some(2)], map[1 := 1, 2 := 2], false);
    var s4 := State(map[Root(0) := Some(1), Field(1) := Some(2), Field(2) := None], map[1 := 1, 2 := 1], false);
    ([INIT, s1, s2, s3, s4], [New(0, 1), New(1, 2), Set(Field(1), Root(1)), Drop(1)])
  }

  lemma ListOfTwoIsRun()
    ensures var (states, ops) := ListOfTwo();
            IsRun(states, ops) && forall i :: 0 <= i < 4 ==> !UnsafeStep(ops[i], states[i])
  {
    var (states, ops) := ListOfTwo();
    assert Step(ops[0], states[0]) == states[1];
    assert Step(ops[1], states[1]) == states[2];
    assert Step(ops[2], states[2]) == states[3];
    assert Step(ops[3], states[3]) == states[4];
  }

  /** The step through a list that nobody else holds: head = head->next deletes the node and then reads the
      AutoPtr in it. */
  lemma HeadToNextIsUnsafe()
    ensures var (states, ops) := ListOfTwo();
            var step := Set(Root(0), Field(1));
            IsRun(states + [Step(step, states[4])], ops + [step]) && !states[4].fault && Step(step, states[4]).fault
  {
    hide Step, Enabled, UnsafeStep;
    ListOfTwoIsRun();
    StepIsUnsafe();
    var (states, ops) := ListOfTwo();
    var step := Set(Root(0), Field(1));
    Extend(states, ops, step);
    RunFaultsIffUnsafe(states + [Step(step, states[4])], ops + [step], 4);
  }

  lemma Extend(states: seq<State>, ops: seq<Op>, op: Op)
    requires IsRun(states, ops) && Enabled(op, states[|ops|])
    ensures IsRun(states + [Step(op, states[|ops|])], ops + [op])
  {
    hide Step, Enabled;
  }

  lemma StepIsUnsafe()
    ensures var s, step := ListOfTwo().0[4], Set(Root(0), Field(1)); Enabled(step, s) && UnsafeStep(step, s)
  {
    assert 1 in DoomedAt(ListOfTwo().0[4], Root(0));
  }
}
