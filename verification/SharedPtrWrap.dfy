/**
 One pointer more than the counter has values is too many: a run that frees an object with owners.
 */
module SharedPtrWrap {
  import opened SharedPtr
  import opened Options
  import opened SharedPtrInvariant

  ghost predicate IsRunTo(states: seq<State>, actions: seq<Action>, s: State, limit: nat) {
    && IsRun(states, actions) && states[|states| - 1] == s
    && forall i :: 0 <= i < |states| ==> |states[i].pointers| <= limit
  }

  lemma Take(states: seq<State>, actions: seq<Action>, s: State, a: Action, s': State, limit: nat)
    returns (states': seq<State>, actions': seq<Action>)
    requires IsRunTo(states, actions, s, limit) && Enabled(s, a) && Next(s, a) == s' && |s'.pointers| <= limit
    ensures IsRunTo(states', actions', s', limit) && states'[0] == states[0]
  {
    hide Next, Enabled;
    states', actions' := states + [s'], actions + [a];
  }

  /** One thread and one object. */
  function Solo(w: nat, x: Object, pointers: map<nat, Pointer>, th: Thread, live: nat): State {
    State(w, [x], pointers, [th], live, false)
  }

  lemma Singleton<T>(a: T, b: T)
    ensures [a][0 := b] == [b]
  {
  }

  lemma SoloBegins(w: nat, x: Object, pointers: map<nat, Pointer>, held: set<nat>, live: nat, op: Operation)
    requires op.p in pointers <==> !op.Construct?
    requires !op.Destroy? ==> (op.from == Raw(0) && 0 in held) || (op.from == From(0) && 0 in pointers)
    ensures var s := Solo(w, x, pointers, Thread(held, Idle), live);
            && Enabled(s, Begin(0, op))
            && Next(s, Begin(0, op)) == Solo(w, x, pointers, Thread(held, Running(op, Entry)), live)
  {
    Singleton(Thread(held, Idle), Thread(held, Running(op, Entry)));
  }

  lemma SoloStores(w: nat, x: Object, pointers: map<nat, Pointer>, held: set<nat>, live: nat, op: Operation)
    requires op.Construct? && x.deletions == 0
    requires op.from == Raw(0) || (op.from == From(0) && 0 in pointers && pointers[0].data == Some(0))
    ensures var s := Solo(w, x, pointers, Thread(held, Running(op, Entry)), live);
            && Enabled(s, Step(0))
            && Next(s, Step(0)) == Solo(w, x, pointers[op.p := Pointer(Some(0), false)],
                                        Thread(held, Running(op, Acquire)), live)
  {
    Singleton(Thread(held, Running(op, Entry)), Thread(held, Running(op, Acquire)));
  }

  lemma SoloAcquires(w: nat, x: Object, pointers: map<nat, Pointer>, held: set<nat>, live: nat, op: Operation)
    requires x.deletions == 0 && op.p in pointers && pointers[op.p].data == Some(0)
    ensures var s := Solo(w, x, pointers, Thread(held, Running(op, Acquire)), live);
            && Enabled(s, Step(0))
            && Next(s, Step(0)) == Solo(w, Object(Up(s, x.count), 0), pointers[op.p := Pointer(Some(0), true)],
                                        Thread(held - {0}, Idle), live)
  {
    Singleton(Thread(held, Running(op, Acquire)), Thread(held - {0}, Idle));
    Singleton(x, Object(Up(Solo(w, x, pointers, Thread(held, Idle), live), x.count), 0));
  }

  lemma SoloLetsGo(w: nat, x: Object, pointers: map<nat, Pointer>, live: nat, op: Operation)
    requires op.Destroy? && op.p in pointers && pointers[op.p].data == Some(0)
    ensures var s := Solo(w, x, pointers, Thread({}, Running(op, Entry)), live);
            && Enabled(s, Step(0))
            && Next(s, Step(0)) == Solo(w, x, pointers, Thread({}, Running(op, Release)), live)
  {
    Singleton(Thread({}, Running(op, Entry)), Thread({}, Running(op, Release)));
  }

  lemma SoloReleases(w: nat, pointers: map<nat, Pointer>, live: nat, op: Operation)
    requires op.p in pointers && pointers[op.p].data == Some(0)
    ensures var s := Solo(w, Object(1, 0), pointers, Thread({}, Running(op, Release)), live);
            && Enabled(s, Step(0))
            && Next(s, Step(0)) == Solo(w, Object(0, 0), pointers[op.p := Pointer(Some(0), false)],
                                        Thread({}, Running(op, Delete(0))), live)
  {
    Singleton(Thread({}, Running(op, Release)), Thread({}, Running(op, Delete(0))));
    Singleton(Object(1, 0), Object(0, 0));
  }

  lemma SoloDeletes(w: nat, pointers: map<nat, Pointer>, op: Operation)
    requires op.Destroy?
    ensures var s := Solo(w, Object(0, 0), pointers, Thread({}, Running(op, Delete(0))), 1);
            && Enabled(s, Step(0))
            && Next(s, Step(0)) == Solo(w, Object(0, 0), pointers, Thread({}, Running(op, Free(0))), 0)
    ensures var s := Solo(w, Object(0, 0), pointers, Thread({}, Running(op, Free(0))), 0);
            && Enabled(s, Step(0))
            && Next(s, Step(0)) == Solo(w, Object(0, 1), pointers, Thread({}, Running(op, Drop)), 0)
    ensures var s := Solo(w, Object(0, 1), pointers, Thread({}, Running(op, Drop)), 0);
            && Enabled(s, Step(0))
            && Next(s, Step(0)) == Solo(w, Object(0, 1), pointers - {op.p}, Thread({}, Idle), 0)
  {
    Singleton(Thread({}, Running(op, Delete(0))), Thread({}, Running(op, Free(0))));
    Singleton(Thread({}, Running(op, Free(0))), Thread({}, Running(op, Drop)));
    Singleton(Thread({}, Running(op, Drop)), Thread({}, Idle));
    Singleton(Object(0, 0), Object(0, 1));
  }

  lemma SoloMakes(w: nat, s: State)
    requires s == State(w, [], map[], [Thread({}, Idle)], 0, false)
    ensures Enabled(s, Make(0)) && Next(s, Make(0)) == Solo(w, Object(0, 0), map[], Thread({}, Making(0)), 0)
    ensures var s' := Solo(w, Object(0, 0), map[], Thread({}, Making(0)), 0);
            && Enabled(s', Step(0))
            && Next(s', Step(0)) == Solo(w, Object(0, 0), map[], Thread({0}, Idle), 1)
  {
    Singleton(Thread({}, Idle), Thread({}, Making(0)));
    Singleton(Thread({}, Making(0)), Thread({0}, Idle));
    assert {} + {0} == {0};
  }

  /** n pointers that own the first object. */
  function Crowd(n: nat): (pointers: map<nat, Pointer>)
    ensures |pointers| == n
    ensures forall i :: i in pointers ==> i < n
    ensures forall i :: 0 <= i < n ==> i in pointers && pointers[i] == Pointer(Some(0), true)
  {
    if n == 0 then map[] else Crowd(n - 1)[n - 1 := Pointer(Some(0), true)]
  }

  function Crowded(w: nat, n: nat): State
    requires w >= 2
  {
    Solo(w, Object(n % w, 0), Crowd(n), Thread({}, Idle), 1)
  }

  /** Begins an operation and takes its first two steps. */
  lemma Acquires(states: seq<State>, actions: seq<Action>, w: nat, count: nat, pointers: map<nat, Pointer>,
                 held: set<nat>, op: Operation, limit: nat)
    returns (states': seq<State>, actions': seq<Action>)
    requires IsRunTo(states, actions, Solo(w, Object(count, 0), pointers, Thread(held, Idle), 1), limit)
    requires op.Construct? && op.p !in pointers && |pointers| < limit
    requires (op.from == Raw(0) && 0 in held) || (op.from == From(0) && 0 in pointers && pointers[0].data == Some(0))
    ensures IsRunTo(states', actions',
                    Solo(w, Object(if count + 1 == w then 0 else count + 1, 0), pointers[op.p := Pointer(Some(0), true)],
                         Thread(held - {0}, Idle), 1), limit)
    ensures states'[0] == states[0]
  {
    hide Next, Enabled, IsRunTo;
    var x := Object(count, 0);
    var s0 := Solo(w, x, pointers, Thread(held, Idle), 1);
    var s1 := Solo(w, x, pointers, Thread(held, Running(op, Entry)), 1);
    SoloBegins(w, x, pointers, held, 1, op);
    states', actions' := Take(states, actions, s0, Begin(0, op), s1, limit);
    var stored := pointers[op.p := Pointer(Some(0), false)];
    var s2 := Solo(w, x, stored, Thread(held, Running(op, Acquire)), 1);
    SoloStores(w, x, pointers, held, 1, op);
    states', actions' := Take(states', actions', s1, Step(0), s2, limit);
    SoloAcquires(w, x, stored, held, 1, op);
    assert stored[op.p := Pointer(Some(0), true)] == pointers[op.p := Pointer(Some(0), true)];
    states', actions' := Take(states', actions', s2, Step(0), Next(s2, Step(0)), limit);
  }

  lemma CrowdStarts(w: nat, limit: nat) returns (states: seq<State>, actions: seq<Action>)
    requires w >= 2 && limit > 0
    ensures IsRunTo(states, actions, Solo(w, Object(1, 0), map[0 := Pointer(Some(0), true)], Thread({}, Idle), 1), limit)
    ensures states[0].modulus == w
  {
    hide Next, Enabled, IsRunTo;
    var s0 := State(w, [], map[], [Thread({}, Idle)], 0, false);
    states, actions := [s0], [];
    Starts(s0, limit);
    SoloMakes(w, s0);
    var s1 := Solo(w, Object(0, 0), map[], Thread({}, Making(0)), 0);
    var s2 := Solo(w, Object(0, 0), map[], Thread({0}, Idle), 1);
    states, actions := Take(states, actions, s0, Make(0), s1, limit);
    states, actions := Take(states, actions, s1, Step(0), s2, limit);
    states, actions := Acquires(states, actions, w, 0, map[], {0}, Construct(0, Raw(0)), limit);
    assert {0} - {0} == {};
  }

  lemma {:induction false} CrowdGathers(w: nat, n: nat, limit: nat) returns (states: seq<State>, actions: seq<Action>)
    requires w >= 2 && 0 < n <= limit
    ensures IsRunTo(states, actions, Crowded(w, n), limit) && states[0].modulus == w
  {
    hide Next, Enabled, IsRunTo;
    if n == 1 {
      states, actions := CrowdStarts(w, limit);
      assert Crowd(1) == map[0 := Pointer(Some(0), true)];
      Remainder(1, 0, 1, w);
    } else {
      states, actions := CrowdGathers(w, n - 1, limit);
      OneMore(n - 1, w);
      states, actions := Acquires(states, actions, w, (n - 1) % w, Crowd(n - 1), {}, Construct(n - 1, From(0)), limit);
      assert {} - {0} == {};
    }
  }

  lemma Starts(s: State, limit: nat)
    requires Initial(s)
    ensures IsRunTo([s], [], s, limit)
  {
  }

  /** The last pointer goes; the count reads 1, so the object goes although the other pointers own it. */
  lemma CrowdFalls(states: seq<State>, actions: seq<Action>, w: nat)
    returns (states': seq<State>, actions': seq<Action>)
    requires w >= 2 && IsRunTo(states, actions, Crowded(w, w + 1), w + 1)
    ensures IsRunTo(states', actions', Solo(w, Object(0, 1), Crowd(w), Thread({}, Idle), 0), w + 1)
    ensures states'[0] == states[0]
  {
    hide Next, Enabled, IsRunTo;
    Remainder(w + 1, 1, 1, w);
    var op, crowd, x, limit := Destroy(w), Crowd(w + 1), Object(1, 0), w + 1;
    SoloBegins(w, x, crowd, {}, 1, op);
    var s1 := Solo(w, x, crowd, Thread({}, Running(op, Entry)), 1);
    states', actions' := Take(states, actions, Crowded(w, w + 1), Begin(0, op), s1, limit);
    SoloLetsGo(w, x, crowd, 1, op);
    var s2 := Solo(w, x, crowd, Thread({}, Running(op, Release)), 1);
    states', actions' := Take(states', actions', s1, Step(0), s2, limit);
    SoloReleases(w, crowd, 1, op);
    var less := crowd[w := Pointer(Some(0), false)];
    var s3 := Solo(w, Object(0, 0), less, Thread({}, Running(op, Delete(0))), 1);
    states', actions' := Take(states', actions', s2, Step(0), s3, limit);
    SoloDeletes(w, less, op);
    var s4 := Solo(w, Object(0, 0), less, Thread({}, Running(op, Free(0))), 0);
    states', actions' := Take(states', actions', s3, Step(0), s4, limit);
    var s5 := Solo(w, Object(0, 1), less, Thread({}, Running(op, Drop)), 0);
    states', actions' := Take(states', actions', s4, Step(0), s5, limit);
    assert less - {w} == Crowd(w);
    states', actions' := Take(states', actions', s5, Step(0), Next(s5, Step(0)), limit);
  }

  /** The next pointer to go touches an object that is not there any more. */
  lemma RuinFaults(w: nat)
    requires w >= 2
    ensures var s := Solo(w, Object(0, 1), Crowd(w), Thread({}, Running(Destroy(0), Release)), 0);
            Enabled(s, Step(0)) && Next(s, Step(0)) == Fault(s)
  {
  }

  /**
     The bound is exact: with one pointer more than the counter has values, a run deletes an object that
     still has owners and then touches it, whatever the width of the counter.
   */
  lemma WrappedCountFaults(w: nat) returns (states: seq<State>, actions: seq<Action>)
    requires w >= 2
    ensures IsRun(states, actions) && states[0].modulus == w
    ensures forall i :: 0 <= i < |states| ==> |states[i].pointers| <= w + 1
    ensures states[|states| - 1].faulty
  {
    hide Next, Enabled, IsRun;
    var x, op := Object(0, 1), Destroy(0);
    states, actions := CrowdGathers(w, w + 1, w + 1);
    states, actions := CrowdFalls(states, actions, w);
    SoloBegins(w, x, Crowd(w), {}, 0, op);
    var s1 := Solo(w, x, Crowd(w), Thread({}, Running(op, Entry)), 0);
    states, actions := Take(states, actions, Solo(w, x, Crowd(w), Thread({}, Idle), 0), Begin(0, op), s1, w + 1);
    SoloLetsGo(w, x, Crowd(w), 0, op);
    var s2 := Solo(w, x, Crowd(w), Thread({}, Running(op, Release)), 0);
    states, actions := Take(states, actions, s1, Step(0), s2, w + 1);
    RuinFaults(w);
    states, actions := Take(states, actions, s2, Step(0), Fault(s2), w + 1);
  }
}
