/**
 Intrusive reference counting as a machine of atomic steps: any number of threads build objects, and
 construct, assign and destroy shared pointers, in any interleaving. A step that dereferences a deleted
 object, or a pointer that is not there, sets `faulty`.
 */
module SharedPtr {
  import opened Options

  /** An object with its reference count; `deletions` says how often its memory has been freed. */
  datatype Object = Object(count: nat, deletions: nat)

  /** A pointer with the object in its data field; `counted` while it has counted itself in. */
  datatype Pointer = Pointer(data: Option<nat>, counted: bool)

  /**
     Where an operation takes its object from: a raw address of an object that the thread has just built, a raw
     address of one that pointer `q` owns in the meantime, or another pointer.
   */
  datatype Source =
    | Nothing
    | Raw(o: nat)
    | Kept(o: nat, q: nat)
    | From(q: nat)
  {
    /** The pointer that must stay as it is while the source is in use. */
    predicate Uses(p: nat) {
      (Kept? || From?) && q == p
    }
  }

  datatype Operation =
    | Construct(p: nat, from: Source)
    | Destroy(p: nat)
    | Assign(p: nat, from: Source)

  /** The next atomic action of an operation. */
  datatype Place =
    | Entry
    | Release
    | Delete(o: nat)
    | Free(o: nat)
    | Store
    | Acquire
    | Drop

  datatype Task =
    | Idle
    | Making(o: nat)
    | Running(op: Operation, at: Place)

  /** `held` are the objects that the thread has built and that no pointer owns yet. */
  datatype Thread = Thread(held: set<nat>, task: Task)

  /** Counts wrap at `modulus`, the width of the counter type; `live` is the global counter. */
  datatype State = State(modulus: nat, objects: seq<Object>, pointers: map<nat, Pointer>, threads: seq<Thread>,
                         live: nat, faulty: bool)

  const LIVE_MODULUS: nat := 0x1_0000_0000_0000_0000

  ghost predicate Initial(s: State) {
    && s.modulus >= 2 && s.objects == [] && s.pointers == map[] && s.live == 0 && !s.faulty
    && forall t :: 0 <= t < |s.threads| ==> s.threads[t] == Thread({}, Idle)
  }

  // The steps.

  predicate Alive(s: State, o: nat) {
    o < |s.objects| && s.objects[o].deletions == 0
  }

  function Fault(s: State): State {
    s.(faulty := true)
  }

  function WithTask(s: State, t: nat, task: Task): State
    requires t < |s.threads|
  {
    s.(threads := s.threads[t := s.threads[t].(task := task)])
  }

  function WithPointer(s: State, p: nat, x: Pointer): State {
    s.(pointers := s.pointers[p := x])
  }

  /** The object that the source refers to; its class is looked at, so it must be there. */
  predicate Readable(s: State, from: Source) {
    match from
    case Nothing => true
    case Raw(o) => Alive(s, o)
    case Kept(o, _) => Alive(s, o)
    case From(q) => q in s.pointers && (s.pointers[q].data.Some? ==> Alive(s, s.pointers[q].data.value))
  }

  function Data(s: State, from: Source): Option<nat> {
    match from
    case Nothing => None
    case Raw(o) => Some(o)
    case Kept(o, _) => Some(o)
    case From(q) => if q in s.pointers then s.pointers[q].data else None
  }

  /** The data field takes its new value; counting in is still to come. */
  function Stored(s: State, t: nat, op: Operation): State
    requires t < |s.threads| && !op.Destroy?
  {
    if !Readable(s, op.from) then
      Fault(s)
    else
      WithTask(WithPointer(s, op.p, Pointer(Data(s, op.from), false)), t,
               if Data(s, op.from).None? then Idle else Running(op, Acquire))
  }

  /** Where the operation goes on once the old object is let go. */
  function After(op: Operation): Place {
    if op.Destroy? then Drop else Store
  }

  function AtEntry(s: State, t: nat, op: Operation): State
    requires t < |s.threads|
  {
    if op.Construct? then Stored(s, t, op)
    else if op.p !in s.pointers then Fault(s)
    else if op.Assign? && s.pointers[op.p].data == Data(s, op.from) then WithTask(s, t, Idle)
    else WithTask(s, t, Running(op, if s.pointers[op.p].data.None? then After(op) else Release))
  }

  /** fetch_sub: the thread that saw 1 goes on to delete the object. */
  function AtRelease(s: State, t: nat, op: Operation): State
    requires t < |s.threads|
  {
    if op.p !in s.pointers || s.pointers[op.p].data.None? || !Alive(s, s.pointers[op.p].data.value) then
      Fault(s)
    else
      var o := s.pointers[op.p].data.value;
      var saw := s.objects[o].count;
      var s' := WithPointer(s.(objects := s.objects[o := s.objects[o].(count := Down(s, saw))]),
                            op.p, s.pointers[op.p].(counted := false));
      WithTask(s', t, Running(op, if saw == 1 then Delete(o) else After(op)))
  }

  function AtAcquire(s: State, t: nat, op: Operation): State
    requires t < |s.threads|
  {
    if op.p !in s.pointers || s.pointers[op.p].data.None? || !Alive(s, s.pointers[op.p].data.value) then
      Fault(s)
    else
      var o := s.pointers[op.p].data.value;
      var s' := WithPointer(s.(objects := s.objects[o := s.objects[o].(count := Up(s, s.objects[o].count))]),
                            op.p, s.pointers[op.p].(counted := true));
      s'.(threads := s'.threads[t := Thread(s'.threads[t].held - {o}, Idle)])
  }

  function Up(s: State, count: nat): nat {
    if count + 1 == s.modulus then 0 else count + 1
  }

  function Down(s: State, count: nat): nat {
    if count > 0 then count - 1 else if s.modulus > 0 then s.modulus - 1 else 0
  }

  function LiveUp(n: nat): nat {
    if n + 1 == LIVE_MODULUS then 0 else n + 1
  }

  function LiveDown(n: nat): nat {
    if n > 0 then n - 1 else LIVE_MODULUS - 1
  }

  /** One atomic step of a thread that is busy. */
  function Advance(s: State, t: nat): State
    requires t < |s.threads|
  {
    match s.threads[t].task
    case Idle => s
    case Making(o) =>
      s.(live := LiveUp(s.live), threads := s.threads[t := Thread(s.threads[t].held + {o}, Idle)])
    case Running(op, at) =>
      match at {
        case Entry => AtEntry(s, t, op)
        case Release => AtRelease(s, t, op)
        case Delete(o) =>
          if !Alive(s, o) then Fault(s)
          else WithTask(s.(live := LiveDown(s.live)), t, Running(op, Free(o)))
        case Free(o) =>
          if !Alive(s, o) then Fault(s)
          else WithTask(s.(objects := s.objects[o := s.objects[o].(deletions := s.objects[o].deletions + 1)]), t,
                        Running(op, After(op)))
        case Store => if op.Destroy? then Fault(s) else Stored(s, t, op)
        case Acquire => AtAcquire(s, t, op)
        case Drop => WithTask(s.(pointers := s.pointers - {op.p}), t, Idle)
      }
  }

  datatype Action =
    | Make(t: nat)
    | Begin(t: nat, op: Operation)
    | Step(t: nat)

  predicate Targets(task: Task, p: nat) {
    task.Running? && task.op.p == p
  }

  predicate Reads(task: Task, q: nat) {
    task.Running? && !task.op.Destroy? && task.op.from.Uses(q)
  }

  predicate Untouched(s: State, q: nat) {
    forall u :: 0 <= u < |s.threads| ==> !Targets(s.threads[u].task, q)
  }

  /**
     What the callers owe: an operation on a pointer excludes every other use of that pointer; a source
     pointer stays as it is during the operation; a raw address is that of an object that the thread has just
     built, or that some pointer owns for as long as the operation takes.
   */
  predicate Permitted(s: State, t: nat, op: Operation)
    requires t < |s.threads|
  {
    && (forall u :: 0 <= u < |s.threads| ==> !Targets(s.threads[u].task, op.p) && !Reads(s.threads[u].task, op.p))
    && (op.p in s.pointers <==> !op.Construct?)
    && (!op.Destroy? ==>
          match op.from
          case Nothing => true
          case Raw(o) => o in s.threads[t].held
          case Kept(o, q) => q in s.pointers && s.pointers[q] == Pointer(Some(o), true) && Untouched(s, q)
          case From(q) => q in s.pointers && Untouched(s, q))
  }

  predicate Enabled(s: State, a: Action) {
    && a.t < |s.threads|
    && match a
       case Make(t) => s.threads[t].task == Idle
       case Begin(t, op) => s.threads[t].task == Idle && Permitted(s, t, op)
       case Step(t) => s.threads[t].task != Idle
  }

  function Next(s: State, a: Action): State
    requires Enabled(s, a)
  {
    match a
    case Make(t) => WithTask(s.(objects := s.objects + [Object(0, 0)]), t, Making(|s.objects|))
    case Begin(t, op) => WithTask(s, t, Running(op, Entry))
    case Step(t) => Advance(s, t)
  }

  ghost predicate IsRun(states: seq<State>, actions: seq<Action>) {
    && |states| == |actions| + 1 && Initial(states[0])
    && forall i :: 0 <= i < |actions| ==> Enabled(states[i], actions[i]) && states[i + 1] == Next(states[i], actions[i])
  }
}
