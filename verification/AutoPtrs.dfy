/** The reference counting discipline of shared/include/Poco/AutoPtr.h over RefCountedObject.h. */
module AutoPtrs {
  import opened Collections

  /** Every AutoPtr with the object it points to, the count of every object alive, and the references held
      by plain pointers: new gives one, and an AutoPtr that takes ownership takes one over. fault is raised
      when duplicate() or release() meets an object that has been deleted. */
  datatype State = State(ptrs: map<nat, Option<nat>>, counts: map<nat, nat>, plain: map<nat, nat>, fault: bool)

  const INIT := State(map[], map[], map[], false)

  datatype Op =
    | New(target: nat)
    | Construct(h: nat, target: nat)
    | ConstructShared(h: nat, target: nat)
    | CopyConstruct(h: nat, from: nat)
    | AssignPlain(h: nat, target: nat)
    | AssignPlainShared(h: nat, target: nat)
    | Assign(h: nat, from: nat)
    | Reset(h: nat)
    | Swap(h: nat, other: nat)
    | Destroy(h: nat)

  function Get(m: map<nat, nat>, o: nat): nat {
    if o in m then m[o] else 0
  }

  // ----- the operations ------------------------------------------------------------------------

  function Duplicate(s: State, o: nat): State {
    if o in s.counts then s.(counts := s.counts[o := s.counts[o] + 1]) else s.(fault := true)
  }

  /** At zero the object is deleted. */
  function Release(s: State, o: nat): State {
    if o !in s.counts then s.(fault := true)
    else if s.counts[o] <= 1 then s.(counts := s.counts - {o})
    else s.(counts := s.counts[o := s.counts[o] - 1])
  }

  /** if (_ptr) _ptr->release() */
  function ReleaseOld(s: State, h: nat): State
    requires h in s.ptrs
  {
    if s.ptrs[h].None? then s else Release(s, s.ptrs[h].value)
  }

  /** _ptr = ptr; if (_ptr) _ptr->duplicate() */
  function Point(s: State, h: nat, target: Option<nat>): State {
    var t := s.(ptrs := s.ptrs[h := target]);
    if target.None? then t else Duplicate(t, target.value)
  }

  /** _ptr = ptr, where the AutoPtr takes over the reference of a plain pointer. */
  function Take(s: State, h: nat, o: nat): State {
    s.(ptrs := s.ptrs[h := Some(o)], plain := s.plain[o := if Get(s.plain, o) > 0 then Get(s.plain, o) - 1 else 0])
  }

  /** What an operation asks of its caller: to construct what is not there, to use what is there, to hand
      over only a reference that a plain pointer holds, and to share only what is alive. */
  predicate Enabled(op: Op, s: State) {
    match op
    case New(o) => o !in s.counts
    case Construct(h, o) => h !in s.ptrs && Get(s.plain, o) > 0
    case ConstructShared(h, o) => h !in s.ptrs && o in s.counts
    case CopyConstruct(h, g) => h !in s.ptrs && g in s.ptrs
    case AssignPlain(h, o) => h in s.ptrs && Get(s.plain, o) > 0
    case AssignPlainShared(h, o) => h in s.ptrs && o in s.counts
    case Assign(h, g) => h in s.ptrs && g in s.ptrs
    case Reset(h) => h in s.ptrs
    case Swap(h, g) => h in s.ptrs && g in s.ptrs
    case Destroy(h) => h in s.ptrs
  }

  function Step(op: Op, s: State): State
    requires Enabled(op, s)
  {
    match op
    case New(o) => s.(counts := s.counts[o := 1], plain := s.plain[o := 1])
    case Construct(h, o) => Take(s, h, o)
    case ConstructShared(h, o) => Point(s, h, Some(o))
    case CopyConstruct(h, g) => Point(s, h, s.ptrs[g])
    case AssignPlain(h, o) => if s.ptrs[h] == Some(o) then s else Take(ReleaseOld(s, h), h, o)
    case AssignPlainShared(h, o) => if s.ptrs[h] == Some(o) then s else Point(ReleaseOld(s, h), h, Some(o))
    case Assign(h, g) => if h == g then s else Point(ReleaseOld(s, h), h, s.ptrs[g])
    case Reset(h) => var t := ReleaseOld(s, h); t.(ptrs := t.ptrs[h := None])
    case Swap(h, g) => s.(ptrs := s.ptrs[h := s.ptrs[g]][g := s.ptrs[h]])
    case Destroy(h) => var t := ReleaseOld(s, h); t.(ptrs := t.ptrs - {h})
  }

  // ----- counts and owners ---------------------------------------------------------------------

  function Owners(ptrs: map<nat, Option<nat>>, o: nat): set<nat> {
    set h | h in ptrs && ptrs[h] == Some(o)
  }

  /** An object is alive exactly while it has owners, and its count is their number. */
  ghost predicate Counted(s: State, o: nat) {
    Get(s.counts, o) == |Owners(s.ptrs, o)| + Get(s.plain, o) && (o in s.counts ==> s.counts[o] > 0)
  }

  ghost predicate Inv(s: State) {
    !s.fault && forall o :: Counted(s, o)
  }

  lemma PointeeIsAlive(s: State, h: nat)
    requires Inv(s) && h in s.ptrs && s.ptrs[h].Some?
    ensures s.ptrs[h].value in s.counts && s.counts[s.ptrs[h].value] > 0
  {
    var o := s.ptrs[h].value;
    assert Counted(s, o);
    assert h in Owners(s.ptrs, o);
  }

  /** While two AutoPtrs share an object, releasing one of them leaves it alive for the other. */
  lemma SharedSurvives(s: State, h: nat, g: nat)
    requires Inv(s) && h in s.ptrs && g in s.ptrs && h != g && s.ptrs[g].Some?
    ensures s.ptrs[g].value in ReleaseOld(s, h).counts
  {
    var o := s.ptrs[g].value;
    PointeeIsAlive(s, g);
    if s.ptrs[h] == Some(o) {
      assert Counted(s, o);
      assert {h, g} <= Owners(s.ptrs, o);
      SubsetCount({h, g}, Owners(s.ptrs, o));
    }
  }

  lemma SubsetCount(a: set<nat>, b: set<nat>)
    requires a <= b
    ensures |a| <= |b|
  {
    assert b == a + (b - a);
  }

  lemma CountWithout(s: set<nat>, h: nat)
    ensures |s - {h}| == |s| - One(h in s)
  {
    if h !in s {
      assert s - {h} == s;
    }
  }

  lemma OwnersElsewhere(ptrs: map<nat, Option<nat>>, h: nat, v: Option<nat>, o: nat)
    ensures var before, after := Owners(ptrs, o), Owners(ptrs[h := v], o);
            before - {h} == after - {h} &&
            (h in before <==> h in ptrs && ptrs[h] == Some(o)) && (h in after <==> v == Some(o))
  {
  }

  lemma OwnersAfterSet(ptrs: map<nat, Option<nat>>, h: nat, v: Option<nat>, o: nat)
    ensures |Owners(ptrs[h := v], o)|
         == |Owners(ptrs, o)| - One(h in ptrs && ptrs[h] == Some(o)) + One(v == Some(o))
  {
    hide Owners;
    var before, after := Owners(ptrs, o), Owners(ptrs[h := v], o);
    OwnersElsewhere(ptrs, h, v, o);
    CountWithout(before, h);
    CountWithout(after, h);
  }

  lemma OwnersAfterRemove(ptrs: map<nat, Option<nat>>, h: nat, o: nat)
    requires h in ptrs
    ensures |Owners(ptrs - {h}, o)| == |Owners(ptrs, o)| - One(ptrs[h] == Some(o))
  {
    assert Owners(ptrs - {h}, o) == Owners(ptrs, o) - {h};
    CountWithout(Owners(ptrs, o), h);
  }

  /** Releasing what an AutoPtr points to takes one from its count, and meets an object alive. */
  lemma CountsAfterReleaseOld(s: State, h: nat, o: nat)
    requires Inv(s) && h in s.ptrs
    ensures var t := ReleaseOld(s, h);
            Get(t.counts, o) == Get(s.counts, o) - One(s.ptrs[h] == Some(o)) &&
            (o in t.counts ==> t.counts[o] > 0) && t == s.(counts := t.counts)
  {
    assert Counted(s, o);
    if s.ptrs[h].Some? {
      PointeeIsAlive(s, h);
    }
  }

  /** The target of the operation is still alive when it is duplicated. */
  lemma TargetIsAlive(op: Op, s: State)
    requires Inv(s) && Enabled(op, s)
    ensures op.AssignPlainShared? && s.ptrs[op.h] != Some(op.target) ==> op.target in ReleaseOld(s, op.h).counts
    ensures op.CopyConstruct? && s.ptrs[op.from].Some? ==> s.ptrs[op.from].value in s.counts
    ensures op.Assign? && op.h != op.from && s.ptrs[op.from].Some? ==>
              s.ptrs[op.from].value in ReleaseOld(s, op.h).counts
  {
    match op {
      case AssignPlainShared(h, o) => CountsAfterReleaseOld(s, h, o);
      case CopyConstruct(_, g) =>
        if s.ptrs[g].Some? {
          PointeeIsAlive(s, g);
        }
      case Assign(h, g) =>
        if h != g && s.ptrs[g].Some? {
          SharedSurvives(s, h, g);
        }
      case _ =>
    }
  }

  predicate Assigns(op: Op) {
    op.AssignPlain? || op.AssignPlainShared? || op.Assign?
  }

  lemma AssignKeepsCounted(op: Op, s: State, o: nat)
    requires Inv(s) && Enabled(op, s) && Assigns(op)
    ensures Counted(Step(op, s), o) && !Step(op, s).fault
  {
    hide Owners, ReleaseOld;
    assert Counted(s, o);
    TargetIsAlive(op, s);
    CountsAfterReleaseOld(s, op.h, o);
    match op {
      case AssignPlain(h, x) => OwnersAfterSet(s.ptrs, h, Some(x), o);
      case AssignPlainShared(h, x) => OwnersAfterSet(s.ptrs, h, Some(x), o);
      case Assign(h, g) => OwnersAfterSet(s.ptrs, h, s.ptrs[g], o);
    }
  }

  lemma OtherKeepsCounted(op: Op, s: State, o: nat)
    requires Inv(s) && Enabled(op, s) && !Assigns(op)
    ensures Counted(Step(op, s), o) && !Step(op, s).fault
  {
    hide Owners, ReleaseOld;
    assert Counted(s, o);
    TargetIsAlive(op, s);
    match op {
      case New(x) => NewHasNoOwners(s, x);
      case Construct(h, x) => OwnersAfterSet(s.ptrs, h, Some(x), o);
      case ConstructShared(h, x) => OwnersAfterSet(s.ptrs, h, Some(x), o);
      case CopyConstruct(h, g) => OwnersAfterSet(s.ptrs, h, s.ptrs[g], o);
      case Reset(h) => OwnersAfterSet(s.ptrs, h, None, o); CountsAfterReleaseOld(s, h, o);
      case Swap(h, g) =>
        OwnersAfterSet(s.ptrs, h, s.ptrs[g], o);
        OwnersAfterSet(s.ptrs[h := s.ptrs[g]], g, s.ptrs[h], o);
      case Destroy(h) => OwnersAfterRemove(s.ptrs, h, o); CountsAfterReleaseOld(s, h, o);
    }
  }

  lemma StepKeepsCounted(op: Op, s: State, o: nat)
    requires Inv(s) && Enabled(op, s)
    ensures Counted(Step(op, s), o) && !Step(op, s).fault
  {
    hide Step, Enabled, Counted, Inv;
    if Assigns(op) {
      AssignKeepsCounted(op, s, o);
    } else {
      OtherKeepsCounted(op, s, o);
    }
  }

  lemma NewHasNoOwners(s: State, o: nat)
    requires Inv(s) && o !in s.counts
    ensures |Owners(s.ptrs, o)| == 0 && Get(s.plain, o) == 0
  {
    assert Counted(s, o);
  }

  /** Every operation keeps the count of every object equal to the number of its owners and meets no deleted
      object. */
  lemma StepKeepsInv(op: Op, s: State)
    requires Inv(s) && Enabled(op, s)
    ensures Inv(Step(op, s))
  {
    hide Step, Enabled, Counted;
    StepKeepsCounted(op, s, 0);
    forall o
      ensures Counted(Step(op, s), o)
    {
      StepKeepsCounted(op, s, o);
    }
  }

  /** The AutoPtrs that an operation writes to. */
  predicate Writes(op: Op, h: nat) {
    !op.New? && (op.h == h || (op.Swap? && op.other == h))
  }

  lemma ReleaseWritesNoAutoPtr(s: State, h: nat)
    requires h in s.ptrs
    ensures ReleaseOld(s, h).ptrs == s.ptrs
  {
  }

  lemma PointWritesOne(s: State, h: nat, target: Option<nat>)
    ensures Point(s, h, target).ptrs == s.ptrs[h := target]
  {
  }

  /** What an operation does to the AutoPtrs: those it does not write to are left alone, a copy points where
      the original points, and a swap exchanges two. */
  lemma StepEffect(op: Op, s: State)
    requires Enabled(op, s)
    ensures var t := Step(op, s);
            (forall h :: !Writes(op, h) ==> (h in t.ptrs <==> h in s.ptrs) && (h in s.ptrs ==> t.ptrs[h] == s.ptrs[h])) &&
            (op.Construct? || op.ConstructShared? || op.AssignPlain? || op.AssignPlainShared? ==>
              op.h in t.ptrs && t.ptrs[op.h] == Some(op.target)) &&
            (op.CopyConstruct? || op.Assign? ==> op.h in t.ptrs && t.ptrs[op.h] == s.ptrs[op.from]) &&
            (op.Swap? ==> op.h in t.ptrs && t.ptrs[op.h] == s.ptrs[op.other]) &&
            (op.Swap? ==> op.other in t.ptrs && t.ptrs[op.other] == s.ptrs[op.h]) &&
            (op.Reset? ==> op.h in t.ptrs && t.ptrs[op.h] == None) &&
            (op.Destroy? ==> op.h !in t.ptrs)
  {
    hide ReleaseOld, Point;
    if !op.New? && op.h in s.ptrs {
      ReleaseWritesNoAutoPtr(s, op.h);
    }
    match op {
      case ConstructShared(h, o) => PointWritesOne(s, h, Some(o));
      case CopyConstruct(h, g) => PointWritesOne(s, h, s.ptrs[g]);
      case AssignPlainShared(h, o) => PointWritesOne(ReleaseOld(s, h), h, Some(o));
      case Assign(h, g) => PointWritesOne(ReleaseOld(s, h), h, s.ptrs[g]);
      case _ =>
    }
  }

  // ----- whole runs ----------------------------------------------------------------------------

  ghost predicate IsRun(states: seq<State>, ops: seq<Op>) {
    |states| == |ops| + 1 && states[0] == INIT &&
    forall i :: 0 <= i < |ops| ==> Enabled(ops[i], states[i]) && states[i + 1] == Step(ops[i], states[i])
  }

  lemma InitHolds()
    ensures Inv(INIT)
  {
    assert forall o :: Owners(map[], o) == {};
  }

  /** In every run the count of every object is the number of its owners, and duplicate() and release() meet
      only objects that are alive. */
  lemma {:induction false} RunKeepsInv(states: seq<State>, ops: seq<Op>, n: nat)
    requires IsRun(states, ops) && n <= |ops|
    ensures Inv(states[n])
  {
    hide Inv, Step, Enabled;
    if n == 0 {
      InitHolds();
    } else {
      RunKeepsInv(states, ops, n - 1);
      StepKeepsInv(ops[n - 1], states[n - 1]);
    }
  }

  /** In every run an object dies in a step exactly when the step takes away its last owner. */
  lemma DiesWithLastOwner(states: seq<State>, ops: seq<Op>, n: nat, o: nat)
    requires IsRun(states, ops) && n < |ops| && o in states[n].counts
    ensures var after := states[n + 1];
            o !in after.counts <==> Owners(after.ptrs, o) == {} && Get(after.plain, o) == 0
  {
    hide Step;
    RunKeepsInv(states, ops, n);
    StepKeepsCounted(ops[n], states[n], o);
  }

  // ----- assign(C*) ----------------------------------------------------------------------------

  /** assign(C*) takes the reference over exactly when it is not handed the object it already holds. */
  lemma AssignTakesOwnershipIff(s: State, h: nat, o: nat)
    requires Inv(s) && Enabled(AssignPlain(h, o), s)
    ensures Get(Step(AssignPlain(h, o), s).plain, o) == Get(s.plain, o) - 1 <==> s.ptrs[h] != Some(o)
    ensures Step(AssignPlain(h, o), s).ptrs[h] == Some(o)
  {
  }

  /** An AutoPtr that shares an object does not take its plain reference over: when the AutoPtr is gone the
      object is still alive, with nobody but the plain pointer to release it. */
  lemma ReferenceIsLeftBehind()
    ensures var ops := [New(7), ConstructShared(0, 7), AssignPlain(0, 7), Destroy(0)];
            exists states: seq<State> ::
              IsRun(states, ops) && states[4] == State(map[], map[7 := 1], map[7 := 1], false)
  {
    var ops := [New(7), ConstructShared(0, 7), AssignPlain(0, 7), Destroy(0)];
    var s1 := State(map[], map[7 := 1], map[7 := 1], false);
    var s2 := State(map[0 := Some(7)], map[7 := 2], map[7 := 1], false);
    assert Step(ops[0], INIT) == s1;
    assert Step(ops[1], s1) == s2;
    assert Step(ops[2], s2) == s2;
    assert Step(ops[3], s2) == s1;
    var states := [INIT, s1, s2, s2, s1];
    assert IsRun(states, ops);
  }
}
