/** One invocation of an active method as a protocol between the calling thread, the pool thread and the
    owners of the result: ActiveMethod.h, ActiveStarter.h, ActiveRunnable.h, ActiveResult.h, and the
    reference counts of RefCountedObject.h and AutoPtr.h. */
module ActiveMethods {
  import opened Collections

  /** Where the caller stands in operator() and start(); the last four are the way out when the pool throws. */
  datatype Caller =
    | Entered | HolderMade | RunnableMade | ArgumentPassed | PoolStarted | Duplicated | ArgumentDropped
    | LocalDropped | Returned
    | PoolThrew | ThrewArgumentDropped | ThrewLocalDropped | Unwound

  /** Where the pool thread stands in run(). */
  datatype Thread = NotStarted | Running | ResultSet | Notified | Released

  /** Nothing yet, the value that the method returned, or the exception it left with. */
  datatype Outcome = Pending | Data(value: int) | Error(exception: int)

  /** An object with a reference count: not yet made, alive with its count, or deleted so many times. */
  datatype Object = Object(made: bool, count: int, deletions: nat)

  datatype State = State(
    caller: Caller, thread: Thread, runnable: Object, holder: Object, outcome: Outcome, event: bool,
    results: nat)

  /** results counts the ActiveResult objects that clients own; operator()'s own one is counted apart. */
  const INIT := State(Entered, NotStarted, Object(false, 0, 0), Object(false, 0, 0), Pending, false, 0)

  predicate Alive(o: Object) {
    o.made && o.count > 0 && o.deletions == 0
  }

  function Make(o: Object): Object {
    Object(true, 1, o.deletions)
  }

  function Duplicate(o: Object): Object {
    o.(count := o.count + 1)
  }

  /** --_counter, then delete at zero. */
  function Release(o: Object): Object {
    if o.count == 1 then o.(count := 0, deletions := o.deletions + 1) else o.(count := o.count - 1)
  }

  /** Releasing the runnable; deleting it destroys the ActiveResult in it, which releases the holder. */
  function ReleaseRunnable(s: State): State {
    var r := Release(s.runnable);
    s.(runnable := r,
       holder := if r.deletions > s.runnable.deletions then Release(s.holder) else s.holder)
  }

  datatype Step =
    | NewHolder | NewRunnable | PassArgument | StartThread | RefuseThread | DuplicateRunnable
    | DropArgument | DropLocal | ReturnResult | DropOwnResult
    | SetData(value: int) | SetError(exception: int) | Notify | ReleaseGuard
    | CopyResult | DropResult | WaitReturns

  predicate Enabled(t: Step, s: State) {
    match t
    case NewHolder => s.caller == Entered
    case NewRunnable => s.caller == HolderMade
    case PassArgument => s.caller == RunnableMade
    case StartThread => s.caller == ArgumentPassed
    case RefuseThread => s.caller == ArgumentPassed
    case DuplicateRunnable => s.caller == PoolStarted
    case DropArgument => s.caller == Duplicated || s.caller == PoolThrew
    case DropLocal => s.caller == ArgumentDropped || s.caller == ThrewArgumentDropped
    case ReturnResult => s.caller == LocalDropped
    case DropOwnResult => s.caller == ThrewLocalDropped
    case SetData(_) => s.thread == Running
    case SetError(_) => s.thread == Running
    case Notify => s.thread == ResultSet
    case ReleaseGuard => s.thread == Notified
    case CopyResult => s.results > 0
    case DropResult => s.results > 0
    case WaitReturns => s.results > 0 && s.event
  }

  function Next(t: Step, s: State): State
    requires Enabled(t, s)
  {
    match t
    case NewHolder => s.(caller := HolderMade, holder := Make(s.holder))
    case NewRunnable => s.(caller := RunnableMade, runnable := Make(s.runnable), holder := Duplicate(s.holder))
    case PassArgument => s.(caller := ArgumentPassed, runnable := Duplicate(s.runnable))
    case StartThread => s.(caller := PoolStarted, thread := Running)
    case RefuseThread => s.(caller := PoolThrew)
    case DuplicateRunnable => s.(caller := Duplicated, runnable := Duplicate(s.runnable))
    case DropArgument =>
      ReleaseRunnable(s).(caller := if s.caller == Duplicated then ArgumentDropped else ThrewArgumentDropped)
    case DropLocal =>
      ReleaseRunnable(s).(caller := if s.caller == ArgumentDropped then LocalDropped else ThrewLocalDropped)
    case ReturnResult => s.(caller := Returned, results := s.results + 1)
    case DropOwnResult => s.(caller := Unwound, holder := Release(s.holder))
    case SetData(v) => s.(thread := ResultSet, outcome := Data(v))
    case SetError(e) => s.(thread := ResultSet, outcome := Error(e))
    case Notify => s.(thread := Notified, event := true)
    case ReleaseGuard => ReleaseRunnable(s).(thread := Released)
    case CopyResult => s.(results := s.results + 1, holder := Duplicate(s.holder))
    case DropResult => s.(results := s.results - 1, holder := Release(s.holder))
    case WaitReturns => s
  }

  predicate Releases(t: Step) {
    t.DropArgument? || t.DropLocal? || t.ReleaseGuard?
  }

  /** The steps that dereference the runnable, and those that dereference the holder: also the release that
      deletes the runnable, and with it the ActiveResult in it. */
  predicate UsesRunnable(t: Step) {
    t.PassArgument? || t.StartThread? || t.RefuseThread? || t.DuplicateRunnable? || t.DropArgument? || t.DropLocal? ||
    t.SetData? || t.SetError? || t.Notify? || t.ReleaseGuard?
  }

  predicate UsesHolder(t: Step, s: State) {
    (Releases(t) && s.runnable.count == 1) ||
    t.NewRunnable? || t.ReturnResult? || t.DropOwnResult? || t.SetData? || t.SetError? || t.Notify? ||
    t.CopyResult? || t.DropResult? || t.WaitReturns?
  }

  predicate BeforeRunnable(c: Caller) {
    c == Entered || c == HolderMade
  }

  predicate OwnsLocal(c: Caller) {
    c == RunnableMade || c == ArgumentPassed || c == PoolStarted || c == Duplicated || c == ArgumentDropped ||
    c == PoolThrew || c == ThrewArgumentDropped
  }

  predicate OwnsArgument(c: Caller) {
    c == ArgumentPassed || c == PoolStarted || c == Duplicated || c == PoolThrew
  }

  predicate HasDuplicated(c: Caller) {
    c == Duplicated || c == ArgumentDropped || c == LocalDropped || c == Returned
  }

  predicate OwnsResult(c: Caller) {
    c != Entered && c != Returned && c != Unwound
  }

  predicate HandedOver(c: Caller) {
    c == PoolStarted || HasDuplicated(c)
  }

  /** Every count is the number of owners; the thread's share is added only by duplicate(), which may come
      after the thread has already given it back. */
  ghost predicate Counted(s: State) {
    s.runnable.count == One(OwnsLocal(s.caller)) + One(OwnsArgument(s.caller))
                        + One(HasDuplicated(s.caller)) - One(s.thread == Released) &&
    s.runnable.made == !BeforeRunnable(s.caller) &&
    s.runnable.deletions == One(s.runnable.made && s.runnable.count == 0) &&
    s.holder.count == One(OwnsResult(s.caller)) + s.results + One(Alive(s.runnable)) &&
    s.holder.made == (s.caller != Entered) &&
    s.holder.deletions == One(s.holder.made && s.holder.count == 0)
  }

  ghost predicate Inv(s: State) {
    Counted(s) &&
    (s.thread != NotStarted <==> HandedOver(s.caller)) &&
    (s.results > 0 ==> s.caller == Returned) &&
    (s.outcome == Pending <==> s.thread == NotStarted || s.thread == Running) &&
    (s.event <==> s.thread == Notified || s.thread == Released)
  }

  lemma ReleaseKeepsInv(t: Step, s: State)
    requires Inv(s) && Enabled(t, s) && Releases(t)
    ensures Inv(Next(t, s))
  {
    match t {
      case DropArgument => assert Counted(Next(t, s));
      case DropLocal => assert Counted(Next(t, s));
      case ReleaseGuard => assert Counted(Next(t, s));
    }
  }

  predicate Acquires(t: Step) {
    t.NewHolder? || t.NewRunnable? || t.PassArgument? || t.DuplicateRunnable? || t.ReturnResult? || t.CopyResult?
  }

  lemma AcquireKeepsInv(t: Step, s: State)
    requires Inv(s) && Enabled(t, s) && Acquires(t)
    ensures Inv(Next(t, s))
  {
  }

  lemma OtherKeepsInv(t: Step, s: State)
    requires Inv(s) && Enabled(t, s) && !Releases(t) && !Acquires(t)
    ensures Inv(Next(t, s))
  {
  }

  lemma StepKeepsInv(t: Step, s: State)
    requires Inv(s) && Enabled(t, s)
    ensures Inv(Next(t, s))
  {
    hide Inv, Next, Enabled;
    if Releases(t) {
      ReleaseKeepsInv(t, s);
    } else if Acquires(t) {
      AcquireKeepsInv(t, s);
    } else {
      OtherKeepsInv(t, s);
    }
  }

  lemma StepKeepsEvent(t: Step, s: State)
    requires Inv(s) && Enabled(t, s) && s.event
    ensures Next(t, s).event && Next(t, s).outcome == s.outcome
  {
  }

  /** What no interleaving violates, one step at a time. */
  lemma StepIsSafe(t: Step, s: State)
    requires Inv(s) && Enabled(t, s)
    ensures UsesRunnable(t) ==> Alive(s.runnable)
    ensures UsesHolder(t, s) ==> Alive(s.holder)
    ensures t.WaitReturns? ==> s.outcome != Pending
  {
    hide UsesRunnable, UsesHolder, Alive;
    if UsesRunnable(t) {
      RunnableIsAlive(t, s);
    }
    if UsesHolder(t, s) {
      HolderIsAlive(t, s);
    }
  }

  lemma RunnableIsAlive(t: Step, s: State)
    requires Inv(s) && Enabled(t, s) && UsesRunnable(t)
    ensures Alive(s.runnable)
  {
  }

  lemma HolderIsAlive(t: Step, s: State)
    requires Inv(s) && Enabled(t, s) && UsesHolder(t, s)
    ensures Alive(s.holder)
  {
  }

  // ----- whole runs ----------------------------------------------------------------------------

  ghost predicate IsRun(states: seq<State>, steps: seq<Step>) {
    |states| == |steps| + 1 && states[0] == INIT &&
    forall i :: 0 <= i < |steps| ==> Enabled(steps[i], states[i]) && states[i + 1] == Next(steps[i], states[i])
  }

  lemma InitHolds()
    ensures Inv(INIT)
  {
    assert INIT.caller == Entered && INIT.thread == NotStarted;
  }

  lemma {:induction false} RunKeepsInv(states: seq<State>, steps: seq<Step>, n: nat)
    requires IsRun(states, steps) && n <= |steps|
    ensures Inv(states[n])
  {
    hide Inv, Next, Enabled;
    if n == 0 {
      InitHolds();
    } else {
      RunKeepsInv(states, steps, n - 1);
      StepKeepsInv(steps[n - 1], states[n - 1]);
    }
  }

  /** In every interleaving, including those where run() ends before duplicate(): no step uses a deleted
      object, nothing is deleted twice, the runnable is deleted only when the caller and the thread are
      both through with it, and the holder lives while any ActiveResult does: the one of operator(), those of
      the clients, and the one in the runnable. */
  lemma NoUseAfterDelete(states: seq<State>, steps: seq<Step>, n: nat)
    requires IsRun(states, steps) && n < |steps|
    ensures UsesRunnable(steps[n]) ==> Alive(states[n].runnable)
    ensures UsesHolder(steps[n], states[n]) ==> Alive(states[n].holder)
    ensures var s := states[n + 1];
            s.runnable.deletions <= 1 && s.holder.deletions <= 1 &&
            (s.runnable.deletions == 1 ==>
              !OwnsLocal(s.caller) && !OwnsArgument(s.caller) && (s.thread == Released || s.thread == NotStarted)) &&
            (OwnsResult(s.caller) || s.results > 0 || Alive(s.runnable) ==> Alive(s.holder))
  {
    hide Inv, Next, Enabled;
    RunKeepsInv(states, steps, n);
    RunKeepsInv(states, steps, n + 1);
    StepIsSafe(steps[n], states[n]);
    InvMeansAlive(states[n + 1]);
  }

  lemma InvMeansAlive(s: State)
    requires Inv(s)
    ensures s.runnable.deletions <= 1 && s.holder.deletions <= 1
    ensures s.runnable.deletions == 1 ==>
      !OwnsLocal(s.caller) && !OwnsArgument(s.caller) && (s.thread == Released || s.thread == NotStarted)
    ensures OwnsResult(s.caller) || s.results > 0 || Alive(s.runnable) ==> Alive(s.holder)
  {
  }

  /** The step hands over the result that the outcome tells of: what the method returned as its value, what it
      threw as an error. */
  predicate Hands(t: Step, outcome: Outcome) {
    (t.SetData? && outcome == Data(t.value)) || (t.SetError? && outcome == Error(t.exception))
  }

  predicate IsSet(t: Step) {
    t.SetData? || t.SetError?
  }

  lemma StepHands(t: Step, s: State)
    requires Enabled(t, s)
    ensures if IsSet(t) then Hands(t, Next(t, s).outcome) else Next(t, s).outcome == s.outcome
  {
  }

  /** A result that is there was handed over by an earlier step of the run, as what it is. */
  lemma {:induction false} ResultWasSet(states: seq<State>, steps: seq<Step>, n: nat)
    requires IsRun(states, steps) && n <= |steps| && states[n].outcome != Pending
    ensures exists i :: 0 <= i < n && Hands(steps[i], states[n].outcome)
  {
    hide Next, Enabled;
    StepHands(steps[n - 1], states[n - 1]);
    if IsSet(steps[n - 1]) {
    } else {
      ResultWasSet(states, steps, n - 1);
    }
  }

  lemma {:induction false} SetStays(states: seq<State>, steps: seq<Step>, m: nat, n: nat)
    requires IsRun(states, steps) && m <= n <= |steps| && states[m].outcome != Pending
    ensures states[n].outcome == states[m].outcome
  {
    hide Inv, Next, Enabled;
    if m == n {
    } else {
      SetStays(states, steps, m, n - 1);
      RunKeepsInv(states, steps, n - 1);
      StepHands(steps[n - 1], states[n - 1]);
      if IsSet(steps[n - 1]) {
        SetOnlyWhileRunning(steps[n - 1], states[n - 1]);
      }
    }
  }

  lemma SetOnlyWhileRunning(t: Step, s: State)
    requires Inv(s) && Enabled(t, s) && IsSet(t)
    ensures s.outcome == Pending
  {
  }

  /** wait() returns only in a run in which the thread has handed over a result before, once; and what the
      client then finds is that result: the value if the method returned one, the error if it threw. */
  lemma WaitReturnsAfterResult(states: seq<State>, steps: seq<Step>, n: nat)
    requires IsRun(states, steps) && n < |steps| && steps[n] == WaitReturns
    ensures exists i :: 0 <= i < n && Hands(steps[i], states[n].outcome)
    ensures forall i :: 0 <= i < |steps| && IsSet(steps[i]) ==> i < n && Hands(steps[i], states[n].outcome)
  {
    hide Inv, Next, Enabled, Hands, IsSet;
    RunKeepsInv(states, steps, n);
    StepIsSafe(steps[n], states[n]);
    ResultWasSet(states, steps, n);
    forall i | 0 <= i < |steps| && IsSet(steps[i])
      ensures i < n && Hands(steps[i], states[n].outcome)
    {
      SetIsFound(states, steps, i, n);
    }
  }

  lemma SetIsFound(states: seq<State>, steps: seq<Step>, i: nat, n: nat)
    requires IsRun(states, steps) && i < |steps| && n < |steps| && IsSet(steps[i]) && states[n].outcome != Pending
    ensures i < n && Hands(steps[i], states[n].outcome)
  {
    hide Inv, Next, Enabled;
    RunKeepsInv(states, steps, i);
    SetOnlyWhileRunning(steps[i], states[i]);
    StepHands(steps[i], states[i]);
    if n <= i {
      SetStays(states, steps, n, i);
    } else {
      SetStays(states, steps, i + 1, n);
    }
  }

  /** The event is sticky: once set it stays set, so that every wait() after the first returns too. */
  lemma {:induction false} EventStaysSet(states: seq<State>, steps: seq<Step>, m: nat, n: nat)
    requires IsRun(states, steps) && m <= n <= |steps| && states[m].event
    ensures states[n].event && states[n].outcome == states[m].outcome
  {
    hide Inv, Next, Enabled;
    if m == n {
    } else {
      EventStaysSet(states, steps, m, n - 1);
      RunKeepsInv(states, steps, n - 1);
      StepKeepsEvent(steps[n - 1], states[n - 1]);
    }
  }

  /** Nothing is left to do: the caller is out, the thread has ended or never ran, all results are gone. */
  predicate Quiescent(s: State) {
    (s.caller == Returned && s.thread == Released && s.results == 0) || s.caller == Unwound
  }

  /** At the end of every run both objects have been deleted, exactly once each. */
  lemma NothingLeaks(states: seq<State>, steps: seq<Step>, n: nat)
    requires IsRun(states, steps) && n <= |steps| && Quiescent(states[n])
    ensures states[n].runnable.deletions == 1 && states[n].holder.deletions == 1
  {
    RunKeepsInv(states, steps, n);
  }

  // ----- progress ------------------------------------------------------------------------------

  function CallerRank(c: Caller): nat {
    match c
    case Entered => 10
    case HolderMade => 9
    case RunnableMade => 8
    case ArgumentPassed => 7
    case PoolStarted => 6
    case Duplicated => 5
    case ArgumentDropped => 4
    case LocalDropped => 3
    case Returned => 0
    case PoolThrew => 4
    case ThrewArgumentDropped => 3
    case ThrewLocalDropped => 2
    case Unwound => 0
  }

  function ThreadRank(t: Thread): nat {
    match t
    case NotStarted => 4
    case Running => 3
    case ResultSet => 2
    case Notified => 1
    case Released => 0
  }

  /** How many steps are left at most. */
  function Rank(s: State): nat {
    CallerRank(s.caller) + ThreadRank(s.thread) + s.results
  }

  /** The steps that bring the protocol forward: all but copying a result and looking at the event. */
  predicate Advances(t: Step) {
    !t.CopyResult? && !t.WaitReturns?
  }

  lemma AdvancesDescend(t: Step, s: State)
    requires Inv(s) && Enabled(t, s) && Advances(t)
    ensures Rank(Next(t, s)) < Rank(s)
  {
    hide Counted, Release, Duplicate, Make;
  }

  ghost predicate CanRun(steps: seq<Step>, s: State) {
    steps == [] || (Advances(steps[0]) && Enabled(steps[0], s) && CanRun(steps[1..], Next(steps[0], s)))
  }

  ghost function After(steps: seq<Step>, s: State): State
    requires CanRun(steps, s)
  {
    if steps == [] then s else After(steps[1..], Next(steps[0], s))
  }

  /** Only so many steps can follow one another when no client copies a result. */
  lemma {:induction false} NoEndlessRun(steps: seq<Step>, s: State)
    requires Inv(s) && CanRun(steps, s)
    ensures |steps| <= Rank(s)
  {
    hide Inv, Rank, Next, Enabled, Advances;
    if steps == [] {
    } else {
      AdvancesDescend(steps[0], s);
      StepKeepsInv(steps[0], s);
      NoEndlessRun(steps[1..], Next(steps[0], s));
    }
  }

  lemma SomeStepAdvances(s: State) returns (t: Step)
    requires Inv(s) && !Quiescent(s)
    ensures Enabled(t, s) && Advances(t)
  {
    t := match s.caller
      case Entered => NewHolder
      case HolderMade => NewRunnable
      case RunnableMade => PassArgument
      case ArgumentPassed => StartThread
      case PoolStarted => DuplicateRunnable
      case Duplicated => DropArgument
      case PoolThrew => DropArgument
      case ArgumentDropped => DropLocal
      case ThrewArgumentDropped => DropLocal
      case LocalDropped => ReturnResult
      case ThrewLocalDropped => DropOwnResult
      case _ =>
        if s.thread == Running then SetData(0)
        else if s.thread == ResultSet then Notify
        else if s.thread == Notified then ReleaseGuard
        else DropResult;
  }

  lemma {:induction false} CanFinish(s: State) returns (steps: seq<Step>)
    requires Inv(s)
    ensures CanRun(steps, s) && Quiescent(After(steps, s))
    decreases Rank(s)
  {
    hide Inv, Next, Enabled, Quiescent, Advances, Rank;
    if Quiescent(s) {
      steps := [];
    } else {
      var t := SomeStepAdvances(s);
      StepKeepsInv(t, s);
      AdvancesDescend(t, s);
      var rest := CanFinish(Next(t, s));
      steps := [t] + rest;
      assert steps[1..] == rest;
    }
  }

  /** From every state of every run the protocol can be brought to its end, by steps that advance it; every
      sequence of such steps is finite, and it can be continued as long as the end is not reached. */
  lemma NeverStuck(states: seq<State>, steps: seq<Step>, n: nat)
    requires IsRun(states, steps) && n <= |steps|
    ensures exists more: seq<Step> :: CanRun(more, states[n]) && Quiescent(After(more, states[n]))
    ensures forall more: seq<Step> :: CanRun(more, states[n]) ==> |more| <= Rank(states[n])
    ensures !Quiescent(states[n]) ==> exists t :: Enabled(t, states[n]) && Advances(t)
  {
    hide Inv, Next, Enabled, Quiescent, Rank, CanRun, After, Advances;
    RunKeepsInv(states, steps, n);
    var more := CanFinish(states[n]);
    forall m: seq<Step> | CanRun(m, states[n])
      ensures |m| <= Rank(states[n])
    {
      NoEndlessRun(m, states[n]);
    }
    if !Quiescent(states[n]) {
      var t := SomeStepAdvances(states[n]);
    }
  }

  ghost function Last(states: seq<State>): State
    requires states != []
  {
    states[|states| - 1]
  }

  lemma StartIsRun()
    ensures IsRun([INIT], []) && Last([INIT]) == INIT
  {
  }

  lemma Extend(states: seq<State>, steps: seq<Step>, t: Step) returns (longer: seq<State>, more: seq<Step>)
    requires IsRun(states, steps) && Enabled(t, Last(states))
    ensures IsRun(longer, more) && |more| == |steps| + 1 && more[|steps|] == t
    ensures |longer| == |more| + 1 && longer[|steps|] == Last(states) && Last(longer) == Next(t, Last(states))
    ensures forall i :: 0 <= i < |steps| ==> more[i] == steps[i]
  {
    hide Next, Enabled;
    longer, more := states + [Next(t, Last(states))], steps + [t];
  }

  /** The run that looks dangerous exists: the thread is through before the starter duplicates, and the
      duplicate still finds the runnable alive. */
  lemma ThreadMayFinishBeforeDuplicate()
    ensures exists states: seq<State>, steps: seq<Step> ::
      IsRun(states, steps) && 7 < |steps| && steps[7] == DuplicateRunnable && states[7].thread == Released
  {
    hide IsRun, Last;
    StartIsRun();
    var a1, b1 := Extend([INIT], [], NewHolder);
    var a2, b2 := Extend(a1, b1, NewRunnable);
    var a3, b3 := Extend(a2, b2, PassArgument);
    var a4, b4 := Extend(a3, b3, StartThread);
    var a5, b5 := Extend(a4, b4, SetData(0));
    var a6, b6 := Extend(a5, b5, Notify);
    var a7, b7 := Extend(a6, b6, ReleaseGuard);
    var a8, b8 := Extend(a7, b7, DuplicateRunnable);
    assert Last(a7).thread == Released;
    assert IsRun(a8, b8) && 7 < |b8| && b8[7] == DuplicateRunnable && a8[7].thread == Released;
  }

  /** Only returning and copying a result make clients own one more, and only dropping one less. */
  lemma ResultsEffect(t: Step, s: State)
    requires Enabled(t, s)
    ensures Next(t, s).results == s.results + One(t.ReturnResult? || t.CopyResult?) - One(t.DropResult?)
  {
  }

  /** A run up to the end of the thread, which hands over its result in step 4. */
  lemma ThreadEnds(t: Step) returns (states: seq<State>, steps: seq<Step>, outcome: Outcome)
    requires IsSet(t)
    ensures IsRun(states, steps) && |steps| == 7 && steps[4] == t && Hands(t, outcome)
    ensures Last(states) == State(PoolStarted, Released, Object(true, 1, 0), Object(true, 2, 0), outcome, true, 0)
  {
    hide IsRun, Last;
    StartIsRun();
    var a1, b1 := Extend([INIT], [], NewHolder);
    var a2, b2 := Extend(a1, b1, NewRunnable);
    var a3, b3 := Extend(a2, b2, PassArgument);
    var a4, b4 := Extend(a3, b3, StartThread);
    var a5, b5 := Extend(a4, b4, t);
    var a6, b6 := Extend(a5, b5, Notify);
    states, steps := Extend(a6, b6, ReleaseGuard);
    outcome := if t.SetData? then Data(t.value) else Error(t.exception);
  }

  /** Both ways out of the method lead to a client that waits and finds the result. */
  lemma ResultIsFound(t: Step)
    requires IsSet(t)
    ensures exists states: seq<State>, steps: seq<Step> ::
      IsRun(states, steps) && |steps| == 12 && steps[4] == t && steps[11] == WaitReturns &&
      Hands(t, states[11].outcome)
  {
    hide IsRun, Last, Hands, IsSet;
    var a7, b7, outcome := ThreadEnds(t);
    var a8, b8 := Extend(a7, b7, DuplicateRunnable);
    var a9, b9 := Extend(a8, b8, DropArgument);
    var a10, b10 := Extend(a9, b9, DropLocal);
    var a11, b11 := Extend(a10, b10, ReturnResult);
    var a12, b12 := Extend(a11, b11, WaitReturns);
    assert IsRun(a12, b12) && |b12| == 12 && b12[4] == t && b12[11] == WaitReturns && Hands(t, a12[11].outcome);
  }
}
