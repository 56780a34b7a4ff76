/**
 What a finished operation on a shared pointer has achieved, in every run: the pointer holds the object that
 its source held when the operation began, and nothing else was touched. And every operation finishes.
 */
module SharedPtrEffect {
  import opened Options
  import opened SharedPtr
  import opened SharedPtrInvariant

  /** The pointer has gone, or holds the object `d` and has counted itself in, or is null. */
  predicate Achieved(s: State, op: Operation, d: Option<nat>) {
    if op.Destroy? then op.p !in s.pointers
    else op.p in s.pointers && s.pointers[op.p] == Pointer(d, d.Some?)
  }

  /** The object that the pointer is to hold in the end: that of the raw address, or of the other pointer. */
  function Wanted(s: State, op: Operation): Option<nat> {
    match op
    case Destroy(_) => None
    case Construct(_, Nothing) => None
    case Construct(_, Raw(o)) => Some(o)
    case Construct(_, Kept(o, _)) => Some(o)
    case Construct(_, From(q)) => if q in s.pointers then s.pointers[q].data else None
    case Assign(_, Nothing) => None
    case Assign(_, Raw(o)) => Some(o)
    case Assign(_, Kept(o, _)) => Some(o)
    case Assign(_, From(q)) => if q in s.pointers then s.pointers[q].data else None
  }

  predicate SamePointer(s: State, s': State, q: nat) {
    (q in s.pointers <==> q in s'.pointers) && (q in s.pointers ==> s'.pointers[q] == s.pointers[q])
  }

  /** The pointers that the source refers to are as they were. */
  ghost predicate SameSource(s: State, s': State, op: Operation) {
    !op.Destroy? ==> forall q :: op.from.Uses(q) ==> q in s.pointers && SamePointer(s, s', q)
  }

  /** The operation that thread t began in s0 goes on. */
  ghost predicate Underway(s0: State, s: State, t: nat, op: Operation) {
    && t < |s.threads| && s.threads[t].task.Running? && s.threads[t].task.op == op
    && SameSource(s0, s, op)
  }

  /** A step touches no pointer but that of its operation, and no thread but its own. */
  lemma TouchesOnlyItsPointer(s: State, a: Action)
    requires Enabled(s, a)
    ensures OnlyThread(s, Next(s, a), a.t)
    ensures forall q :: !(a.Step? && Targets(s.threads[a.t].task, q)) ==> SamePointer(s, Next(s, a), q)
  {
  }

  lemma Begins(s: State, t: nat, op: Operation)
    requires Enabled(s, Begin(t, op))
    ensures Underway(s, Next(s, Begin(t, op)), t, op)
  {
  }

  lemma OtherStep(s0: State, s: State, a: Action, t: nat, op: Operation)
    requires Inv(s) && Enabled(s, a) && a.t != t && Underway(s0, s, t, op)
    ensures Underway(s0, Next(s, a), t, op)
  {
    hide Next;
    TouchesOnlyItsPointer(s, a);
    forall q | !op.Destroy? && op.from.Uses(q)
      ensures SamePointer(s0, Next(s, a), q)
    {
      assert Reads(s.threads[t].task, q);
      assert !Targets(s.threads[a.t].task, q);
    }
  }

  lemma SameData(s0: State, s: State, op: Operation)
    requires SameSource(s0, s, op)
    ensures !op.Destroy? ==> Data(s, op.from) == Wanted(s0, op)
  {
    if !op.Destroy? && op.from.From? {
      assert op.from.Uses(op.from.q);
    }
  }

  /** One step of the thread itself: the operation goes on, or it has achieved what it was for. */
  lemma OwnStep(s0: State, s: State, t: nat, op: Operation)
    requires Inv(s) && Underway(s0, s, t, op) && !Advance(s, t).faulty
    ensures var s' := Advance(s, t);
            if s'.threads[t].task == Idle then
              Achieved(s', op, Wanted(s0, op)) && (!op.Destroy? ==> forall q :: op.from.Uses(q) && q != op.p ==> SamePointer(s0, s', q))
            else Underway(s0, s', t, op)
  {
    assert TaskInvariant(s, s.threads[t]);
    SameData(s0, s, op);
    TouchesOnlyItsPointer(s, Step(t));
  }

  // Over runs.

  /** Never more pointers than the counter has values. */
  ghost predicate Within(states: seq<State>) {
    forall i :: 0 <= i < |states| ==> |states[i].pointers| <= states[i].modulus
  }

  /** Thread t begins op in state i and is busy with it up to state k. */
  ghost predicate Busy(states: seq<State>, actions: seq<Action>, t: nat, op: Operation, i: nat, k: nat) {
    && IsRun(states, actions) && Within(states) && i < k < |states| && actions[i] == Begin(t, op)
    && forall l :: i < l < k ==> t < |states[l].threads| && states[l].threads[t].task != Idle
  }

  lemma {:induction false} StillUnderway(states: seq<State>, actions: seq<Action>, t: nat, op: Operation, i: nat, k: nat)
    requires Busy(states, actions, t, op, i, k)
    ensures Inv(states[k]) && t < |states[k].threads|
    ensures if states[k].threads[t].task == Idle then
              && Achieved(states[k], op, Wanted(states[i], op))
              && (!op.Destroy? ==> forall q :: op.from.Uses(q) && q != op.p ==> SamePointer(states[i], states[k], q))
            else Underway(states[i], states[k], t, op)
  {
    hide Inv, Next, Enabled, Achieved, Underway, Wanted, Advance;
    RunIsSafe(states, actions, k - 1);
    RunIsSafe(states, actions, k);
    assert Enabled(states[k - 1], actions[k - 1]) && states[k] == Next(states[k - 1], actions[k - 1]);
    if k == i + 1 {
      Begins(states[i], t, op);
      BusyWhileUnderway(states[i], states[k], t, op);
    } else {
      StillUnderway(states, actions, t, op, i, k - 1);
      OneStepOn(states[i], states[k - 1], actions[k - 1], t, op);
    }
  }

  lemma BusyWhileUnderway(s0: State, s: State, t: nat, op: Operation)
    requires Underway(s0, s, t, op)
    ensures t < |s.threads| && s.threads[t].task != Idle
  {
  }

  lemma OneStepOn(s0: State, s: State, a: Action, t: nat, op: Operation)
    requires Inv(s) && Enabled(s, a) && Inv(Next(s, a)) && Underway(s0, s, t, op)
    ensures t < |Next(s, a).threads|
    ensures if Next(s, a).threads[t].task == Idle then
              && Achieved(Next(s, a), op, Wanted(s0, op))
              && (!op.Destroy? ==> forall q :: op.from.Uses(q) && q != op.p ==> SamePointer(s0, Next(s, a), q))
            else Underway(s0, Next(s, a), t, op)
  {
    hide TasksInvariant, Exclusion, PointersInvariant, CountsInvariant, CustodyInvariant, Advance, SameSource;
    TouchesOnlyItsPointer(s, a);
    if a.t == t {
      assert a == Step(t);
      OwnStep(s0, s, t, op);
    } else {
      OtherStep(s0, s, a, t, op);
    }
  }

  /**
     A finished construction or assignment has left the pointer with the object that the source held at the
     beginning, counted in if there is one; a finished destruction has removed the pointer; the source is as it
     was; and no step of the thread in between has touched another pointer.
   */
  lemma FinishedIsAchieved(states: seq<State>, actions: seq<Action>, t: nat, op: Operation, i: nat, j: nat)
    requires Busy(states, actions, t, op, i, j) && t < |states[j].threads| && states[j].threads[t].task == Idle
    ensures Achieved(states[j], op, Wanted(states[i], op))
    ensures !op.Destroy? ==> forall q :: op.from.Uses(q) && q != op.p ==> SamePointer(states[i], states[j], q)
    ensures forall k :: i <= k < j && actions[k].t == t ==> OnlyPointer(states[k], states[k + 1], op.p)
  {
    hide Inv, Next, Enabled, Achieved, Underway, Wanted, OnlyPointer;
    StillUnderway(states, actions, t, op, i, j);
    forall k | i <= k < j && actions[k].t == t
      ensures OnlyPointer(states[k], states[k + 1], op.p)
    {
      if k > i {
        StillUnderway(states, actions, t, op, i, k);
      }
      OwnStepTouches(states[i], states[k], actions[k], t, op);
    }
  }

  lemma OwnStepTouches(s0: State, s: State, a: Action, t: nat, op: Operation)
    requires Enabled(s, a) && a.t == t && (a == Begin(t, op) || Underway(s0, s, t, op))
    ensures OnlyPointer(s, Next(s, a), op.p)
  {
    hide Next;
    TouchesOnlyItsPointer(s, a);
    var s' := Next(s, a);
    forall q | q != op.p
      ensures (q in s.pointers <==> q in s'.pointers) && (q in s.pointers ==> s.pointers[q] == s'.pointers[q])
    {
      assert SamePointer(s, s', q);
    }
  }

  // Every operation finishes.

  /** At most so many steps of the thread itself are left. */
  function Left(task: Task): nat {
    match task
    case Idle => 0
    case Making(_) => 1
    case Running(op, at) =>
      match at {
        case Entry => 7
        case Release => 6
        case Delete(_) => 5
        case Free(_) => 4
        case Store => 3
        case Acquire => 2
        case Drop => 1
      }
  }

  /** A busy thread can always take a step, and none of its steps is in vain. */
  lemma StepIsProgress(s: State, t: nat)
    requires Inv(s) && t < |s.threads| && s.threads[t].task != Idle && !Advance(s, t).faulty
    ensures Enabled(s, Step(t)) && Left(Next(s, Step(t)).threads[t].task) < Left(s.threads[t].task)
  {
    assert TaskInvariant(s, s.threads[t]);
  }

  function StepsOf(actions: seq<Action>, t: nat): nat {
    if actions == [] then 0
    else StepsOf(actions[..|actions| - 1], t) + if actions[|actions| - 1] == Step(t) then 1 else 0
  }

  /** An operation takes at most seven steps of its thread, whatever the others do in between. */
  lemma {:induction false} SevenSteps(states: seq<State>, actions: seq<Action>, t: nat, op: Operation, i: nat, k: nat)
    requires Busy(states, actions, t, op, i, k)
    ensures t < |states[k].threads| && StepsOf(actions[i + 1..k], t) + Left(states[k].threads[t].task) <= 7
  {
    hide Inv, Next, Enabled, Achieved, Underway, Wanted, Left;
    StillUnderway(states, actions, t, op, i, k);
    if k == i + 1 {
      assert actions[i + 1..k] == [];
      BeginsWithSeven(states[i], t, op);
    } else {
      SevenSteps(states, actions, t, op, i, k - 1);
      StillUnderway(states, actions, t, op, i, k - 1);
      RunIsSafe(states, actions, k);
      assert actions[i + 1..k][..k - 1 - (i + 1)] == actions[i + 1..k - 1];
      assert Enabled(states[k - 1], actions[k - 1]) && states[k] == Next(states[k - 1], actions[k - 1]);
      NotLonger(states[k - 1], actions[k - 1], t);
    }
  }

  lemma BeginsWithSeven(s: State, t: nat, op: Operation)
    requires Enabled(s, Begin(t, op))
    ensures Left(Next(s, Begin(t, op)).threads[t].task) == 7
  {
  }

  lemma NotLonger(s: State, a: Action, t: nat)
    requires Inv(s) && Enabled(s, a) && Inv(Next(s, a)) && t < |s.threads| && s.threads[t].task != Idle
    ensures t < |Next(s, a).threads|
    ensures Left(Next(s, a).threads[t].task) + (if a == Step(t) then 1 else 0) <= Left(s.threads[t].task)
  {
    hide TasksInvariant, Exclusion, PointersInvariant, CountsInvariant, CustodyInvariant, Left, Advance;
    TouchesOnlyItsPointer(s, a);
    if a.t == t {
      StepIsProgress(s, t);
    }
  }
}
