/**
 What every atomic step on shared pointers keeps, and what that means for every run: counts are numbers of
 owners, objects are freed once and only when nobody owns them, and nothing touches a freed object.
 */
module SharedPtrInvariant {
  import opened SharedPtr
  import opened Options

  /** The pointers that have counted themselves in for an object. */
  function Owners(pointers: map<nat, Pointer>, o: nat): set<nat> {
    set p | p in pointers && pointers[p] == Pointer(Some(o), true)
  }

  predicate Settled(x: Pointer) {
    x.data.None? || x.counted
  }

  /** The thread is between building an object and sharing it, or between letting it go and freeing it. */
  predicate Keeps(th: Thread, o: nat) {
    || o in th.held
    || th.task == Making(o)
    || (th.task.Running? && (th.task.at == Delete(o) || th.task.at == Free(o)))
  }

  predicate SourceInvariant(s: State, th: Thread, from: Source) {
    match from
    case Nothing => true
    case Raw(o) => o in th.held
    case Kept(o, q) => q in s.pointers && s.pointers[q] == Pointer(Some(o), true)
    case From(q) => q in s.pointers && Settled(s.pointers[q])
  }

  predicate TaskInvariant(s: State, th: Thread) {
    match th.task
    case Idle => true
    case Making(o) => o !in th.held
    case Running(op, at) =>
      && (op.p in s.pointers <==> !(op.Construct? && at.Entry?))
      && (!op.Destroy? ==> SourceInvariant(s, th, op.from))
      && (!at.Entry? && !op.Destroy? ==> !op.from.Uses(op.p))
      && match at {
        case Entry => !op.Construct? ==> Settled(s.pointers[op.p])
        case Release => !op.Construct? && s.pointers[op.p].counted
        case Delete(o) => !op.Construct? && !s.pointers[op.p].counted && o !in th.held
        case Free(o) => !op.Construct? && !s.pointers[op.p].counted && o !in th.held
        case Drop => op.Destroy? && !s.pointers[op.p].counted
        case Store => op.Assign? && !s.pointers[op.p].counted
        case Acquire =>
          && !op.Destroy? && !s.pointers[op.p].counted
          && s.pointers[op.p].data == Data(s, op.from) && s.pointers[op.p].data.Some?
      }
  }

  ghost predicate TasksInvariant(s: State) {
    forall t :: 0 <= t < |s.threads| ==> TaskInvariant(s, s.threads[t])
  }

  /** No two operations in progress disturb each other's pointers. */
  ghost predicate Exclusion(s: State) {
    forall t, u, p :: 0 <= t < |s.threads| && 0 <= u < |s.threads| && t != u && Targets(s.threads[t].task, p) ==>
      !Targets(s.threads[u].task, p) && !Reads(s.threads[u].task, p)
  }

  /** A pointer that no operation works on is null or counted in, and points to an object that exists. */
  ghost predicate PointersInvariant(s: State) {
    forall p :: p in s.pointers ==>
      && (s.pointers[p].counted ==> s.pointers[p].data.Some? && s.pointers[p].data.value < |s.objects|)
      && (Settled(s.pointers[p]) || exists t :: 0 <= t < |s.threads| && Targets(s.threads[t].task, p))
  }

  ghost predicate CountsInvariant(s: State)
    requires s.modulus > 0
  {
    forall o :: 0 <= o < |s.objects| ==>
      s.objects[o].count == |Owners(s.pointers, o)| % s.modulus
  }

  /** Exactly one thread keeps an object without owners that has not been freed; nobody keeps any other. */
  ghost predicate CustodyInvariant(s: State) {
    && (forall t, o :: 0 <= t < |s.threads| && Keeps(s.threads[t], o) ==>
          Alive(s, o) && Owners(s.pointers, o) == {})
    && (forall t, u, o :: 0 <= t < |s.threads| && 0 <= u < |s.threads| && Keeps(s.threads[t], o) && Keeps(s.threads[u], o)
          ==> t == u)
    && (forall o :: 0 <= o < |s.objects| ==> ObjectInvariant(s, o))
  }

  ghost predicate ObjectInvariant(s: State, o: nat)
    requires o < |s.objects|
  {
    && s.objects[o].deletions <= 1
    && (Owners(s.pointers, o) != {} ==> s.objects[o].deletions == 0)
    && (Owners(s.pointers, o) == {} && s.objects[o].deletions == 0 ==>
          exists t :: 0 <= t < |s.threads| && Keeps(s.threads[t], o))
  }

  /** The thread has not entered the object in the global counter yet, or has taken it out. */
  predicate Unregistered(th: Thread, o: nat) {
    th.task == Making(o) || (th.task.Running? && th.task.at == Free(o))
  }

  ghost predicate Registered(s: State, o: nat) {
    Alive(s, o) && forall t :: 0 <= t < |s.threads| ==> !Unregistered(s.threads[t], o)
  }

  ghost function AllRegistered(s: State): set<nat> {
    set o | 0 <= o < |s.objects| && Registered(s, o)
  }

  ghost predicate Inv(s: State) {
    && s.modulus >= 2 && !s.faulty
    && TasksInvariant(s) && Exclusion(s) && PointersInvariant(s)
    && CountsInvariant(s) && CustodyInvariant(s)
    && s.live == |AllRegistered(s)| % LIVE_MODULUS
  }

  // Every step keeps it, as long as no more pointers exist than the counter has values.

  lemma OwnersAfter(pointers: map<nat, Pointer>, p: nat, x: Pointer, o: nat)
    ensures Owners(pointers[p := x], o)
         == if x == Pointer(Some(o), true) then Owners(pointers, o) + {p} else Owners(pointers, o) - {p}
  {
  }

  /** The pointers are the same except for p, and p owns nothing before or after. */
  ghost predicate OnlyPointer(s: State, s': State, p: nat) {
    && (forall q :: q != p ==> (q in s.pointers <==> q in s'.pointers))
    && (forall q :: q != p && q in s.pointers ==> s.pointers[q] == s'.pointers[q])
  }

  /** Only thread t has moved. */
  ghost predicate OnlyThread(s: State, s': State, t: nat) {
    && t < |s.threads| == |s'.threads|
    && forall u :: 0 <= u < |s.threads| && u != t ==> s'.threads[u] == s.threads[u]
  }

  lemma OtherTask(s: State, s': State, t: nat, p: nat, u: nat)
    requires TasksInvariant(s) && Exclusion(s) && OnlyThread(s, s', t) && OnlyPointer(s, s', p)
    requires Targets(s.threads[t].task, p) && u < |s.threads| && u != t
    ensures TaskInvariant(s', s'.threads[u])
  {
    assert !Targets(s.threads[u].task, p) && !Reads(s.threads[u].task, p);
  }

  lemma TasksKept(s: State, s': State, t: nat, p: nat)
    requires TasksInvariant(s) && Exclusion(s) && OnlyThread(s, s', t)
    requires OnlyPointer(s, s', p) && Targets(s.threads[t].task, p)
    requires TaskInvariant(s', s'.threads[t])
    ensures TasksInvariant(s')
  {
    forall u | 0 <= u < |s'.threads|
      ensures TaskInvariant(s', s'.threads[u])
    {
      if u != t {
        OtherTask(s, s', t, p, u);
      }
    }
  }

  lemma ExclusionKept(s: State, s': State, t: nat)
    requires Exclusion(s) && OnlyThread(s, s', t)
    requires s'.threads[t].task.Running? ==> s.threads[t].task.Running? && s'.threads[t].task.op == s.threads[t].task.op
    ensures Exclusion(s')
  {
    forall p
      ensures Targets(s'.threads[t].task, p) ==> Targets(s.threads[t].task, p)
      ensures Reads(s'.threads[t].task, p) ==> Reads(s.threads[t].task, p)
    {
    }
  }

  lemma PointersKept(s: State, s': State, t: nat, p: nat)
    requires PointersInvariant(s) && OnlyThread(s, s', t) && OnlyPointer(s, s', p)
    requires Targets(s.threads[t].task, p) && |s.objects| == |s'.objects|
    requires p in s'.pointers ==>
               && (s'.pointers[p].counted ==> s'.pointers[p].data.Some? && s'.pointers[p].data.value < |s.objects|)
               && (Settled(s'.pointers[p]) || Targets(s'.threads[t].task, p))
    ensures PointersInvariant(s')
  {
    forall q | q in s'.pointers && !Settled(s'.pointers[q])
      ensures exists u :: 0 <= u < |s'.threads| && Targets(s'.threads[u].task, q)
    {
      if q == p {
        assert Targets(s'.threads[t].task, p);
      } else {
        var u :| 0 <= u < |s.threads| && Targets(s.threads[u].task, q);
        assert Targets(s'.threads[u].task, q);
      }
    }
  }

  /** What the pointers own, and which objects there are, has not changed. */
  ghost predicate SameOwners(s: State, s': State) {
    && |s.objects| == |s'.objects|
    && forall o :: 0 <= o < |s.objects| ==> Owners(s.pointers, o) == Owners(s'.pointers, o)
  }

  lemma CustodyKept(s: State, s': State, t: nat)
    requires CustodyInvariant(s) && OnlyThread(s, s', t) && SameOwners(s, s')
    requires forall o :: 0 <= o < |s.objects| ==> s.objects[o].deletions == s'.objects[o].deletions
    requires forall o :: Keeps(s.threads[t], o) <==> Keeps(s'.threads[t], o)
    ensures CustodyInvariant(s')
  {
    assert forall u, o :: 0 <= u < |s.threads| ==> (Keeps(s.threads[u], o) <==> Keeps(s'.threads[u], o));
    forall u, o: nat | 0 <= u < |s'.threads| && Keeps(s'.threads[u], o)
      ensures Alive(s', o) && Owners(s'.pointers, o) == {}
    {
      KeptIsAlive(s, u, o);
    }
    forall o | 0 <= o < |s'.objects|
      ensures ObjectInvariant(s', o)
    {
      assert ObjectInvariant(s, o);
    }
  }

  /** An unowned pointer is written, or goes: nobody owns anything else than before. */
  lemma UnownedPointer(s: State, s': State, p: nat)
    requires OnlyPointer(s, s', p) && s.objects == s'.objects
    requires p in s.pointers ==> !s.pointers[p].counted
    requires p in s'.pointers ==> !s'.pointers[p].counted
    ensures SameOwners(s, s')
  {
  }

  lemma RegisteredKept(s: State, s': State, t: nat)
    requires OnlyThread(s, s', t) && |s.objects| == |s'.objects|
    requires forall o :: 0 <= o < |s.objects| ==> s.objects[o].deletions == s'.objects[o].deletions
    requires forall o :: Unregistered(s.threads[t], o) <==> Unregistered(s'.threads[t], o)
    ensures AllRegistered(s) == AllRegistered(s')
  {
    assert forall u, o :: 0 <= u < |s.threads| ==> (Unregistered(s.threads[u], o) <==> Unregistered(s'.threads[u], o));
    forall o | 0 <= o < |s.objects|
      ensures Registered(s, o) <==> Registered(s', o)
    {
    }
  }

  // A step that only moves the thread on: beginning an operation, or choosing the next action.

  lemma MoveKeeps(s: State, s': State, t: nat)
    requires Inv(s) && t < |s.threads| && s' == s.(threads := s'.threads) && OnlyThread(s, s', t)
    requires s'.threads[t].held == s.threads[t].held
    requires forall o :: Keeps(s.threads[t], o) <==> Keeps(s'.threads[t], o)
    requires forall o :: Unregistered(s.threads[t], o) <==> Unregistered(s'.threads[t], o)
    requires TaskInvariant(s', s'.threads[t])
    requires Exclusion(s') && PointersInvariant(s')
    ensures Inv(s')
  {
    hide Keeps, Unregistered, PointersInvariant, Exclusion;
    CustodyKept(s, s', t);
    RegisteredKept(s, s', t);
    forall u | 0 <= u < |s'.threads|
      ensures TaskInvariant(s', s'.threads[u])
    {
      if u != t {
        assert TaskInvariant(s, s.threads[u]);
      }
    }
  }

  lemma BeginKeeps(s: State, t: nat, op: Operation)
    requires Inv(s) && Enabled(s, Begin(t, op))
    ensures Inv(Next(s, Begin(t, op)))
  {
    var s' := Next(s, Begin(t, op));
    if op.p in s.pointers {
      assert Settled(s.pointers[op.p]);
    }
    MoveKeeps(s, s', t);
  }

  lemma EntryKeeps(s: State, t: nat)
    requires Inv(s) && t < |s.threads| && s.threads[t].task.Running? && s.threads[t].task.at.Entry?
    requires !s.threads[t].task.op.Construct?
    ensures Inv(Advance(s, t))
  {
    var s' := Advance(s, t);
    var op := s.threads[t].task.op;
    assert TaskInvariant(s, s.threads[t]);
    ExclusionKept(s, s', t);
    PointersKept(s, s', t, op.p);
    MoveKeeps(s, s', t);
  }

  // Writing the data field, and dropping a pointer that owns nothing.

  lemma StoredKeeps(s: State, t: nat)
    requires Inv(s) && t < |s.threads| && s.threads[t].task.Running?
    requires s.threads[t].task.at.Store? || (s.threads[t].task.at.Entry? && s.threads[t].task.op.Construct?)
    ensures Inv(Advance(s, t))
  {
    hide Owners, CountsInvariant, CustodyInvariant, AllRegistered, Exclusion, TasksInvariant, PointersInvariant;
    var s' := Advance(s, t);
    var op := s.threads[t].task.op;
    assert TaskInvariant(s, s.threads[t]) by {
      TaskOf(s, t);
    }
    SourceIsThere(s, t, op);
    assert s' == Stored(s, t, op);
    UnownedPointer(s, s', op.p);
    StoredTask(s, t, op);
    TasksKept(s, s', t, op.p);
    ExclusionKept(s, s', t);
    PointersKept(s, s', t, op.p);
    CustodyKept(s, s', t);
    RegisteredKept(s, s', t);
    CountsKept(s, s');
  }

  lemma TaskOf(s: State, t: nat)
    requires TasksInvariant(s) && t < |s.threads|
    ensures TaskInvariant(s, s.threads[t])
  {
  }

  lemma CountsKept(s: State, s': State)
    requires s.modulus > 0 && CountsInvariant(s) && SameOwners(s, s')
    requires s'.modulus == s.modulus && s'.objects == s.objects
    ensures CountsInvariant(s')
  {
  }

  /** The object of a source is there for as long as the operation runs. */
  lemma SourceIsThere(s: State, t: nat, op: Operation)
    requires Inv(s) && t < |s.threads| && s.threads[t].task.Running? && s.threads[t].task.op == op && !op.Destroy?
    ensures TaskInvariant(s, s.threads[t]) && Readable(s, op.from)
    ensures Data(s, op.from).Some? ==> Alive(s, Data(s, op.from).value)
  {
    assert TaskInvariant(s, s.threads[t]);
    match op.from {
      case Nothing =>
      case Raw(o) =>
        assert Keeps(s.threads[t], o);
      case Kept(_, q) =>
        OwnedIsAlive(s, q);
      case From(q) =>
        if s.pointers[q].data.Some? {
          OwnedIsAlive(s, q);
        }
    }
  }

  lemma OwnedIsAlive(s: State, q: nat)
    requires PointersInvariant(s) && CustodyInvariant(s) && q in s.pointers && s.pointers[q].counted
    ensures s.pointers[q].data.Some? && Alive(s, s.pointers[q].data.value)
    ensures q in Owners(s.pointers, s.pointers[q].data.value)
  {
    var o := s.pointers[q].data.value;
    assert q in Owners(s.pointers, o);
    assert ObjectInvariant(s, o);
  }

  lemma StoredTask(s: State, t: nat, op: Operation)
    requires t < |s.threads| && s.threads[t].task.Running? && s.threads[t].task.op == op && !op.Destroy?
    requires s.threads[t].task.at.Store? || (s.threads[t].task.at.Entry? && op.Construct?)
    requires TaskInvariant(s, s.threads[t]) && Readable(s, op.from)
    ensures TaskInvariant(Stored(s, t, op), Stored(s, t, op).threads[t])
  {
  }

  lemma DropKeeps(s: State, t: nat)
    requires Inv(s) && t < |s.threads| && s.threads[t].task.Running? && s.threads[t].task.at.Drop?
    ensures Inv(Advance(s, t))
  {
    hide Owners, CountsInvariant, CustodyInvariant, AllRegistered, Exclusion, PointersInvariant;
    var s' := Advance(s, t);
    var op := s.threads[t].task.op;
    assert TaskInvariant(s, s.threads[t]);
    UnownedPointer(s, s', op.p);
    TasksKept(s, s', t, op.p);
    ExclusionKept(s, s', t);
    PointersKept(s, s', t, op.p);
    CustodyKept(s, s', t);
    RegisteredKept(s, s', t);
    CountsKept(s, s');
  }

  // Letting an object go.

  lemma OneLess(n: nat, w: nat)
    requires n > 0 && w >= 2
    ensures (if n % w > 0 then n % w - 1 else w - 1) == (n - 1) % w
  {
    var q := n / w;
    if n % w > 0 {
      Remainder(n - 1, q, n % w - 1, w);
    } else {
      Remainder(n - 1, q - 1, w - 1, w);
    }
  }

  lemma OneMore(n: nat, w: nat)
    requires w >= 2
    ensures (if n % w + 1 == w then 0 else n % w + 1) == (n + 1) % w
  {
    var q := n / w;
    if n % w + 1 == w {
      Remainder(n + 1, q + 1, 0, w);
    } else {
      Remainder(n + 1, q, n % w + 1, w);
    }
  }

  lemma Remainder(n: nat, q: int, r: nat, w: nat)
    requires n == q * w + r && r < w
    ensures n % w == r
  {
    Multiple(n / w - q, w);
    assert (n / w - q) * w == r - n % w;
  }

  lemma Multiple(k: int, w: nat)
    ensures k >= 1 ==> k * w >= w
    ensures k <= -1 ==> k * w + w <= 0
  {
  }

  /** A pointer that owns o takes itself out, or one that owns nothing counts itself in; the rest is as before. */
  lemma OwnersElsewhere(pointers: map<nat, Pointer>, p: nat, o: nat, own: bool, o': nat)
    requires p in pointers && o' != o
    requires pointers[p] == Pointer(Some(o), !own)
    ensures Owners(pointers[p := Pointer(Some(o), own)], o') == Owners(pointers, o')
  {
    OwnersAfter(pointers, p, Pointer(Some(o), own), o');
  }

  lemma ReleaseCounts(s: State, t: nat, p: nat, o: nat)
    requires Inv(s) && p in s.pointers && s.pointers[p] == Pointer(Some(o), true) && Alive(s, o)
    requires t < |s.threads| && s.threads[t].task.Running?
    requires s.threads[t].task.op.p == p && s.threads[t].task.at.Release?
    ensures |Owners(s.pointers, o)| > 0 && s.objects[o].count == |Owners(s.pointers, o)| % s.modulus
    ensures Owners(Advance(s, t).pointers, o) == Owners(s.pointers, o) - {p}
    ensures |Owners(Advance(s, t).pointers, o)| == |Owners(s.pointers, o)| - 1
    ensures forall o' :: 0 <= o' < |s.objects| && o' != o ==> Owners(Advance(s, t).pointers, o') == Owners(s.pointers, o')
    ensures CountsInvariant(Advance(s, t))
  {
    var s' := Advance(s, t);
    assert p in Owners(s.pointers, o);
    OwnersAfter(s.pointers, p, Pointer(Some(o), false), o);
    OneLess(|Owners(s.pointers, o)|, s.modulus);
    forall o' | 0 <= o' < |s.objects| && o' != o
      ensures Owners(s'.pointers, o') == Owners(s.pointers, o')
    {
      OwnersElsewhere(s.pointers, p, o, false, o');
    }
  }

  /** No more owners than pointers: so the thread that saw 1 let the last owner go, and no other thread did. */
  lemma SawOne(s: State, o: nat)
    requires s.modulus >= 2 && |s.pointers| <= s.modulus && Owners(s.pointers, o) != {}
    ensures |Owners(s.pointers, o)| % s.modulus == 1 <==> |Owners(s.pointers, o)| == 1
  {
    Within(Owners(s.pointers, o), s.pointers.Keys);
    var n := |Owners(s.pointers, o)|;
    assert |s.pointers| == |s.pointers.Keys|;
    if n == s.modulus {
      Remainder(n, 1, 0, s.modulus);
    }
  }

  lemma {:induction false} Within(a: set<nat>, b: set<nat>)
    requires a <= b
    ensures |a| <= |b|
    decreases a
  {
    if a != {} {
      var x :| x in a;
      Within(a - {x}, b - {x});
    }
  }

  /** If the last owner went, and only then, the thread keeps the object from now on. */
  lemma CustodyAfterRelease(s: State, s': State, t: nat, o: nat, last: bool)
    requires CustodyInvariant(s) && OnlyThread(s, s', t) && |s.objects| == |s'.objects|
    requires forall o' :: 0 <= o' < |s.objects| ==> s.objects[o'].deletions == s'.objects[o'].deletions
    requires Alive(s, o) && Owners(s.pointers, o) != {}
    requires forall o' :: 0 <= o' < |s.objects| && o' != o ==> Owners(s'.pointers, o') == Owners(s.pointers, o')
    requires last <==> Owners(s'.pointers, o) == {}
    requires forall o' :: Keeps(s'.threads[t], o') <==> Keeps(s.threads[t], o') || (last && o' == o)
    ensures CustodyInvariant(s')
  {
    hide Owners, Keeps;
    forall u, o' | 0 <= u < |s'.threads| && Keeps(s'.threads[u], o')
      ensures Alive(s', o') && Owners(s'.pointers, o') == {}
      ensures Keeps(s.threads[u], o') || (u == t && last && o' == o)
    {
      if Keeps(s.threads[u], o') {
        assert Owners(s.pointers, o') == {};
      }
    }
    forall o' | 0 <= o' < |s'.objects|
      ensures ObjectInvariant(s', o')
    {
      assert ObjectInvariant(s, o');
      if o' == o {
        assert last ==> Keeps(s'.threads[t], o);
      } else if Owners(s'.pointers, o') == {} && s'.objects[o'].deletions == 0 {
        var u :| 0 <= u < |s.threads| && Keeps(s.threads[u], o');
        assert Keeps(s'.threads[u], o');
      }
    }
  }

  /** The thread saw 1 if and only if it let the last owner go. */
  lemma ReleaseCustody(s: State, t: nat, p: nat, o: nat)
    requires Inv(s) && |s.pointers| <= s.modulus
    requires p in s.pointers && s.pointers[p] == Pointer(Some(o), true) && Alive(s, o)
    requires t < |s.threads| && s.threads[t].task.Running?
    requires s.threads[t].task.op.p == p && s.threads[t].task.at.Release?
    ensures CustodyInvariant(Advance(s, t)) && !Keeps(s.threads[t], o)
    ensures Advance(s, t).threads[t].task.at == Delete(o) <==> |Owners(s.pointers, o)| == 1
  {
    hide Owners, CountsInvariant, TasksInvariant, PointersInvariant, Exclusion, AllRegistered, CustodyInvariant,
        SameOwners;
    ReleaseCounts(s, t, p, o);
    SawOne(s, o);
    assert !Keeps(s.threads[t], o) by {
      OwnerExcludesKeeper(s, t, o);
    }
    CustodyAfterRelease(s, Advance(s, t), t, o, |Owners(s.pointers, o)| == 1);
  }

  lemma OwnerExcludesKeeper(s: State, t: nat, o: nat)
    requires CustodyInvariant(s) && t < |s.threads| && Owners(s.pointers, o) != {}
    ensures !Keeps(s.threads[t], o)
  {
  }

  lemma ReleaseKeeps(s: State, t: nat)
    requires Inv(s) && |s.pointers| <= s.modulus
    requires t < |s.threads| && s.threads[t].task.Running? && s.threads[t].task.at.Release?
    ensures Inv(Advance(s, t))
  {
    hide Owners, CountsInvariant, CustodyInvariant, AllRegistered, Exclusion, PointersInvariant;
    var s' := Advance(s, t);
    var op := s.threads[t].task.op;
    assert TaskInvariant(s, s.threads[t]);
    OwnedIsAlive(s, op.p);
    var o := s.pointers[op.p].data.value;
    ReleaseCounts(s, t, op.p, o);
    ReleaseCustody(s, t, op.p, o);
    TasksKept(s, s', t, op.p);
    ExclusionKept(s, s', t);
    PointersKept(s, s', t, op.p);
    RegisteredKept(s, s', t);
  }


  /** The destructor takes the object out of the global counter. */
  lemma DeleteKeeps(s: State, t: nat)
    requires Inv(s) && t < |s.threads| && s.threads[t].task.Running? && s.threads[t].task.at.Delete?
    ensures Inv(Advance(s, t))
  {
    hide Owners, CountsInvariant, CustodyInvariant, AllRegistered, Exclusion, PointersInvariant;
    var s' := Advance(s, t);
    var op, o := s.threads[t].task.op, s.threads[t].task.at.o;
    assert TaskInvariant(s, s.threads[t]);
    KeptIsAlive(s, t, o);
    TasksKept(s, s', t, op.p);
    ExclusionKept(s, s', t);
    PointersKept(s, s', t, op.p);
    CustodyKept(s, s', t);
    CountsKept(s, s');
    RegisteredGoes(s, s', t, o);
    LiveGoes(|AllRegistered(s')|);
  }

  lemma KeptIsAlive(s: State, t: nat, o: nat)
    requires CustodyInvariant(s) && t < |s.threads| && Keeps(s.threads[t], o)
    ensures Alive(s, o) && Owners(s.pointers, o) == {}
    ensures forall u :: 0 <= u < |s.threads| && u != t ==> !Keeps(s.threads[u], o)
  {
  }

  lemma RegisteredGoes(s: State, s': State, t: nat, o: nat)
    requires CustodyInvariant(s) && OnlyThread(s, s', t) && s.objects == s'.objects && Keeps(s.threads[t], o)
    requires !Unregistered(s.threads[t], o)
    requires forall o' :: Unregistered(s'.threads[t], o') <==> Unregistered(s.threads[t], o') || o' == o
    ensures o in AllRegistered(s) && AllRegistered(s') == AllRegistered(s) - {o}
    ensures |AllRegistered(s)| == |AllRegistered(s')| + 1
  {
    KeptIsAlive(s, t, o);
    forall u | 0 <= u < |s.threads|
      ensures !Unregistered(s.threads[u], o)
    {
      assert Unregistered(s.threads[u], o) ==> Keeps(s.threads[u], o);
    }
    forall o' | 0 <= o' < |s.objects|
      ensures Registered(s', o') <==> Registered(s, o') && o' != o
    {
      assert o' == o ==> Unregistered(s'.threads[t], o');
    }
  }

  lemma LiveGoes(n: nat)
    ensures LiveDown((n + 1) % LIVE_MODULUS) == n % LIVE_MODULUS
    ensures LiveUp(n % LIVE_MODULUS) == (n + 1) % LIVE_MODULUS
  {
    OneLess(n + 1, LIVE_MODULUS);
    OneMore(n, LIVE_MODULUS);
  }

  /** The memory goes: from now on nobody keeps the object, and nobody owns it. */
  lemma FreeKeeps(s: State, t: nat)
    requires Inv(s) && t < |s.threads| && s.threads[t].task.Running? && s.threads[t].task.at.Free?
    ensures Inv(Advance(s, t))
  {
    hide Owners, CountsInvariant, CustodyInvariant, AllRegistered, Exclusion, PointersInvariant;
    var s' := Advance(s, t);
    var op, o := s.threads[t].task.op, s.threads[t].task.at.o;
    assert TaskInvariant(s, s.threads[t]);
    KeptIsAlive(s, t, o);
    TasksKept(s, s', t, op.p);
    ExclusionKept(s, s', t);
    PointersKept(s, s', t, op.p);
    CustodyAfterFree(s, s', t, o);
    CountsAfterFree(s, s', o);
    RegisteredAfterFree(s, s', t, o);
  }

  lemma CountsAfterFree(s: State, s': State, o: nat)
    requires s.modulus > 0 && CountsInvariant(s) && o < |s.objects|
    requires s'.modulus == s.modulus && s'.pointers == s.pointers
    requires s'.objects == s.objects[o := s.objects[o].(deletions := s.objects[o].deletions + 1)]
    ensures CountsInvariant(s')
  {
  }

  lemma CustodyAfterFree(s: State, s': State, t: nat, o: nat)
    requires CustodyInvariant(s) && OnlyThread(s, s', t) && Keeps(s.threads[t], o) && o < |s.objects|
    requires s'.pointers == s.pointers
    requires s'.objects == s.objects[o := s.objects[o].(deletions := s.objects[o].deletions + 1)]
    requires forall o' :: Keeps(s'.threads[t], o') <==> Keeps(s.threads[t], o') && o' != o
    ensures CustodyInvariant(s')
  {
    hide Owners, Keeps;
    KeptIsAlive(s, t, o);
    forall u, o': nat | 0 <= u < |s'.threads| && Keeps(s'.threads[u], o')
      ensures Alive(s', o') && Owners(s'.pointers, o') == {}
    {
      KeptIsAlive(s, u, o');
    }
    forall o' | 0 <= o' < |s'.objects|
      ensures ObjectInvariant(s', o')
    {
      assert ObjectInvariant(s, o');
      if o' != o && Owners(s'.pointers, o') == {} && s'.objects[o'].deletions == 0 {
        var u :| 0 <= u < |s.threads| && Keeps(s.threads[u], o');
        assert Keeps(s'.threads[u], o');
      }
    }
  }

  lemma RegisteredAfterFree(s: State, s': State, t: nat, o: nat)
    requires OnlyThread(s, s', t) && o < |s.objects| && Unregistered(s.threads[t], o)
    requires s'.objects == s.objects[o := s.objects[o].(deletions := s.objects[o].deletions + 1)]
    requires forall o' :: o' != o ==> (Unregistered(s'.threads[t], o') <==> Unregistered(s.threads[t], o'))
    ensures AllRegistered(s) == AllRegistered(s')
  {
    forall o' | 0 <= o' < |s.objects|
      ensures Registered(s, o') <==> Registered(s', o')
    {
      if o' != o {
        assert forall u :: 0 <= u < |s.threads| ==> (Unregistered(s.threads[u], o') <==> Unregistered(s'.threads[u], o'));
      }
    }
  }

  // Counting in.

  lemma AcquireKeeps(s: State, t: nat)
    requires Inv(s) && t < |s.threads| && s.threads[t].task.Running? && s.threads[t].task.at.Acquire?
    ensures Inv(Advance(s, t))
  {
    hide Owners, CountsInvariant, CustodyInvariant, AllRegistered, Exclusion, PointersInvariant;
    var s' := Advance(s, t);
    var op := s.threads[t].task.op;
    assert TaskInvariant(s, s.threads[t]);
    SourceIsThere(s, t, op);
    var o := s.pointers[op.p].data.value;
    AcquireCounts(s, t, op.p, o);
    AcquireCustody(s, t, op, o);
    TasksKept(s, s', t, op.p);
    ExclusionKept(s, s', t);
    PointersKept(s, s', t, op.p);
    RegisteredKept(s, s', t);
  }

  lemma AcquireCounts(s: State, t: nat, p: nat, o: nat)
    requires Inv(s) && p in s.pointers && s.pointers[p] == Pointer(Some(o), false) && Alive(s, o)
    requires t < |s.threads| && s.threads[t].task.Running?
    requires s.threads[t].task.op.p == p && s.threads[t].task.at.Acquire?
    ensures Owners(Advance(s, t).pointers, o) == Owners(s.pointers, o) + {p}
    ensures forall o' :: 0 <= o' < |s.objects| && o' != o ==> Owners(Advance(s, t).pointers, o') == Owners(s.pointers, o')
    ensures CountsInvariant(Advance(s, t))
  {
    var s' := Advance(s, t);
    assert p !in Owners(s.pointers, o);
    OwnersAfter(s.pointers, p, Pointer(Some(o), true), o);
    OneMore(|Owners(s.pointers, o)|, s.modulus);
    forall o' | 0 <= o' < |s.objects| && o' != o
      ensures Owners(s'.pointers, o') == Owners(s.pointers, o')
    {
      OwnersElsewhere(s.pointers, p, o, true, o');
    }
  }

  /** Whoever kept the object before was this thread. */
  lemma AcquireCustody(s: State, t: nat, op: Operation, o: nat)
    requires Inv(s) && t < |s.threads| && s.threads[t].task == Running(op, Acquire)
    requires op.p in s.pointers && s.pointers[op.p] == Pointer(Some(o), false) && Alive(s, o)
    requires !op.Destroy? && Data(s, op.from) == Some(o)
    ensures CustodyInvariant(Advance(s, t))
  {
    hide Owners, CountsInvariant, TasksInvariant, PointersInvariant, Exclusion, AllRegistered, CustodyInvariant;
    var s' := Advance(s, t);
    AcquireCounts(s, t, op.p, o);
    forall u | 0 <= u < |s.threads| && u != t
      ensures !Keeps(s.threads[u], o)
    {
      match op.from {
        case Nothing =>
        case Raw(_) =>
          TaskOf(s, t);
          KeptIsAlive(s, t, o);
        case Kept(_, q) =>
          TaskOf(s, t);
          OwnedIsAlive(s, q);
          OwnerExcludesKeeper(s, u, o);
        case From(q) =>
          TaskOf(s, t);
          OwnedIsAlive(s, q);
          OwnerExcludesKeeper(s, u, o);
      }
    }
    CustodyAfterAcquire(s, s', t, o);
  }

  lemma CustodyAfterAcquire(s: State, s': State, t: nat, o: nat)
    requires CustodyInvariant(s) && OnlyThread(s, s', t) && |s.objects| == |s'.objects|
    requires forall o' :: 0 <= o' < |s.objects| ==> s.objects[o'].deletions == s'.objects[o'].deletions
    requires Alive(s, o) && Owners(s'.pointers, o) != {}
    requires forall o' :: 0 <= o' < |s.objects| && o' != o ==> Owners(s'.pointers, o') == Owners(s.pointers, o')
    requires forall u :: 0 <= u < |s.threads| && u != t ==> !Keeps(s.threads[u], o)
    requires forall o' :: Keeps(s'.threads[t], o') <==> Keeps(s.threads[t], o') && o' != o
    ensures CustodyInvariant(s')
  {
    hide Owners, Keeps;
    forall u, o': nat | 0 <= u < |s'.threads| && Keeps(s'.threads[u], o')
      ensures Alive(s', o') && Owners(s'.pointers, o') == {}
    {
      KeptIsAlive(s, u, o');
    }
    forall o' | 0 <= o' < |s'.objects|
      ensures ObjectInvariant(s', o')
    {
      assert ObjectInvariant(s, o');
      if o' != o && Owners(s'.pointers, o') == {} && s'.objects[o'].deletions == 0 {
        var u :| 0 <= u < |s.threads| && Keeps(s.threads[u], o');
        assert Keeps(s'.threads[u], o');
      }
    }
  }

  // Building an object.

  lemma MakeKeeps(s: State, t: nat)
    requires Inv(s) && Enabled(s, Make(t))
    ensures Inv(Next(s, Make(t)))
  {
    hide Owners, CountsInvariant, CustodyInvariant, AllRegistered, Exclusion, PointersInvariant, TasksInvariant;
    var s' := Next(s, Make(t));
    ExclusionKept(s, s', t);
    MakeTasks(s, t);
    MakeCustody(s, t);
    MakeRegistered(s, t);
  }

  lemma NewIsUnowned(s: State)
    requires PointersInvariant(s)
    ensures Owners(s.pointers, |s.objects|) == {}
  {
  }

  lemma NewIsUnkept(s: State, u: nat)
    requires CustodyInvariant(s) && u < |s.threads|
    ensures !Keeps(s.threads[u], |s.objects|)
  {
    if Keeps(s.threads[u], |s.objects|) {
      KeptIsAlive(s, u, |s.objects|);
    }
  }

  lemma MakeTasks(s: State, t: nat)
    requires Inv(s) && Enabled(s, Make(t))
    ensures TasksInvariant(Next(s, Make(t))) && PointersInvariant(Next(s, Make(t))) && CountsInvariant(Next(s, Make(t)))
  {
    var s' := Next(s, Make(t));
    NewIsUnowned(s);
    NewIsUnkept(s, t);
    forall u | 0 <= u < |s'.threads|
      ensures TaskInvariant(s', s'.threads[u])
    {
      TaskOf(s, u);
    }
    forall q | q in s'.pointers && !Settled(s'.pointers[q])
      ensures exists u :: 0 <= u < |s'.threads| && Targets(s'.threads[u].task, q)
    {
      var u :| 0 <= u < |s.threads| && Targets(s.threads[u].task, q);
      assert Targets(s'.threads[u].task, q);
    }
  }

  lemma MakeCustody(s: State, t: nat)
    requires Inv(s) && Enabled(s, Make(t))
    ensures CustodyInvariant(Next(s, Make(t)))
  {
    hide Owners, CountsInvariant, AllRegistered, Exclusion, PointersInvariant, TasksInvariant;
    var s', made := Next(s, Make(t)), |s.objects|;
    NewIsUnowned(s);
    forall u, o: nat | 0 <= u < |s'.threads|
      ensures Keeps(s'.threads[u], o) <==> Keeps(s.threads[u], o) || (u == t && o == made)
      ensures !Keeps(s.threads[u], made)
    {
      NewIsUnkept(s, u);
    }
    forall u, o: nat | 0 <= u < |s'.threads| && Keeps(s'.threads[u], o)
      ensures Alive(s', o) && Owners(s'.pointers, o) == {}
    {
      if o != made {
        KeptIsAlive(s, u, o);
      }
    }
    forall o | 0 <= o < |s'.objects|
      ensures ObjectInvariant(s', o)
    {
      if o == made {
        assert Keeps(s'.threads[t], o);
      } else {
        assert ObjectInvariant(s, o);
        if Owners(s.pointers, o) == {} && s.objects[o].deletions == 0 {
          var u :| 0 <= u < |s.threads| && Keeps(s.threads[u], o);
          assert Keeps(s'.threads[u], o);
        }
      }
    }
  }

  lemma MakeRegistered(s: State, t: nat)
    requires Inv(s) && Enabled(s, Make(t))
    ensures AllRegistered(s) == AllRegistered(Next(s, Make(t)))
  {
    var s' := Next(s, Make(t));
    forall o | 0 <= o < |s'.objects|
      ensures Registered(s', o) <==> o < |s.objects| && Registered(s, o)
    {
      if o == |s.objects| {
        assert Unregistered(s'.threads[t], o);
      } else {
        assert forall u :: 0 <= u < |s.threads| ==> (Unregistered(s.threads[u], o) <==> Unregistered(s'.threads[u], o));
      }
    }
  }

  lemma CountInKeeps(s: State, t: nat)
    requires Inv(s) && t < |s.threads| && s.threads[t].task.Making?
    ensures Inv(Advance(s, t))
  {
    hide Owners, CountsInvariant, CustodyInvariant, AllRegistered, Exclusion, PointersInvariant, TasksInvariant;
    var s' := Advance(s, t);
    var o := s.threads[t].task.o;
    TaskOf(s, t);
    ExclusionKept(s, s', t);
    CustodyKept(s, s', t);
    CountsKept(s, s');
    CountInTasks(s, t);
    RegisteredComes(s, s', t, o);
    LiveGoes(|AllRegistered(s)|);
  }

  lemma CountInTasks(s: State, t: nat)
    requires Inv(s) && t < |s.threads| && s.threads[t].task.Making?
    ensures TasksInvariant(Advance(s, t)) && PointersInvariant(Advance(s, t))
  {
    hide Owners, CountsInvariant, CustodyInvariant, AllRegistered, Exclusion;
    var s' := Advance(s, t);
    forall u | 0 <= u < |s'.threads|
      ensures TaskInvariant(s', s'.threads[u])
    {
      TaskOf(s, u);
    }
    forall q | q in s'.pointers && !Settled(s'.pointers[q])
      ensures exists u :: 0 <= u < |s'.threads| && Targets(s'.threads[u].task, q)
    {
      var u :| 0 <= u < |s.threads| && Targets(s.threads[u].task, q);
      assert Targets(s'.threads[u].task, q);
    }
  }

  lemma RegisteredComes(s: State, s': State, t: nat, o: nat)
    requires CustodyInvariant(s) && OnlyThread(s, s', t) && s.objects == s'.objects
    requires Keeps(s.threads[t], o) && Unregistered(s.threads[t], o) && !Unregistered(s'.threads[t], o)
    requires forall o' :: o' != o ==> (Unregistered(s'.threads[t], o') <==> Unregistered(s.threads[t], o'))
    ensures o !in AllRegistered(s) && AllRegistered(s') == AllRegistered(s) + {o}
    ensures |AllRegistered(s')| == |AllRegistered(s)| + 1
  {
    KeptIsAlive(s, t, o);
    forall u | 0 <= u < |s.threads|
      ensures !Unregistered(s'.threads[u], o)
    {
      assert Unregistered(s.threads[u], o) ==> Keeps(s.threads[u], o);
    }
    forall o' | 0 <= o' < |s.objects|
      ensures Registered(s', o') <==> Registered(s, o') || o' == o
    {
      if o' != o {
        assert forall u :: 0 <= u < |s.threads| ==> (Unregistered(s.threads[u], o') <==> Unregistered(s'.threads[u], o'));
      } else {
        assert Unregistered(s.threads[t], o');
      }
    }
  }

  // Every run.

  lemma StepKeeps(s: State, a: Action)
    requires Inv(s) && Enabled(s, a) && |s.pointers| <= s.modulus
    ensures Inv(Next(s, a)) && Next(s, a).modulus == s.modulus
  {
    hide Inv;
    match a {
      case Make(t) => MakeKeeps(s, t);
      case Begin(t, op) => BeginKeeps(s, t, op);
      case Step(t) =>
        match s.threads[t].task {
          case Making(_) => CountInKeeps(s, t);
          case Running(op, at) =>
            match at {
              case Entry => if op.Construct? { StoredKeeps(s, t); } else { EntryKeeps(s, t); }
              case Release => ReleaseKeeps(s, t);
              case Delete(_) => DeleteKeeps(s, t);
              case Free(_) => FreeKeeps(s, t);
              case Store => StoredKeeps(s, t);
              case Acquire => AcquireKeeps(s, t);
              case Drop => DropKeeps(s, t);
            }
        }
    }
  }

  lemma InitialInv(s: State)
    requires Initial(s)
    ensures Inv(s)
  {
    assert AllRegistered(s) == {};
  }

  /**
     Whatever the interleaving: while there are never more pointers than the counter has values, no step
     touches a deleted object, and the invariant holds throughout.
   */
  lemma {:induction false} RunIsSafe(states: seq<State>, actions: seq<Action>, n: nat)
    requires IsRun(states, actions) && n < |states|
    requires forall i :: 0 <= i < |actions| ==> |states[i].pointers| <= states[i].modulus
    ensures Inv(states[n])
  {
    hide Inv;
    if n == 0 {
      InitialInv(states[0]);
    } else {
      RunIsSafe(states, actions, n - 1);
      assert |states[n - 1].pointers| <= states[n - 1].modulus;
      StepKeeps(states[n - 1], actions[n - 1]);
    }
  }

  // What the invariant says.

  /** The count is the number of owners; and a pointer that has counted itself in has an object to refer to. */
  lemma CountIsOwners(s: State, o: nat)
    requires Inv(s) && o < |s.objects| && |s.pointers| < s.modulus
    ensures s.objects[o].count == |Owners(s.pointers, o)|
    ensures forall p :: p in Owners(s.pointers, o) ==> Alive(s, o)
  {
    Within(Owners(s.pointers, o), s.pointers.Keys);
    assert |s.pointers| == |s.pointers.Keys|;
    Remainder(|Owners(s.pointers, o)|, 0, |Owners(s.pointers, o)|, s.modulus);
    assert ObjectInvariant(s, o);
  }

  /** A thread sets out to delete an object by letting its last owner go, having seen 1, and in no other way. */
  lemma LastOwnerDeletes(s: State, a: Action, t: nat, o: nat)
    requires Inv(s) && Enabled(s, a) && |s.pointers| <= s.modulus && t < |s.threads|
    requires !(s.threads[t].task.Running? && s.threads[t].task.at == Delete(o))
    ensures var task' := Next(s, a).threads[t].task;
            (task'.Running? && task'.at == Delete(o)) <==>
            && a == Step(t) && s.threads[t].task.Running? && s.threads[t].task.at.Release?
            && o < |s.objects| && Owners(s.pointers, o) == {s.threads[t].task.op.p}
    ensures var task' := Next(s, a).threads[t].task;
            task'.Running? && task'.at == Delete(o) ==> s.objects[o].count == 1
  {
    hide Owners, CountsInvariant, CustodyInvariant, AllRegistered, Exclusion, PointersInvariant;
    if a == Step(t) && s.threads[t].task.Running? && s.threads[t].task.at.Release? {
      var p := s.threads[t].task.op.p;
      TaskOf(s, t);
      OwnedIsAlive(s, p);
      var o' := s.pointers[p].data.value;
      ReleaseCustody(s, t, p, o');
      SawOne(s, o');
      Sole(s.pointers, p, o');
      OwnerOfOne(s.pointers, p, o', o);
    }
  }

  lemma Sole(pointers: map<nat, Pointer>, p: nat, o: nat)
    requires p in Owners(pointers, o)
    ensures |Owners(pointers, o)| == 1 <==> Owners(pointers, o) == {p}
  {
    if |Owners(pointers, o)| == 1 {
      assert |Owners(pointers, o) - {p}| == 0;
      assert Owners(pointers, o) - {p} == {};
    }
  }

  lemma OwnerOfOne(pointers: map<nat, Pointer>, p: nat, o: nat, o': nat)
    requires p in Owners(pointers, o)
    ensures p in Owners(pointers, o') <==> o' == o
  {
  }

  /** Memory is freed once at most, and by the thread that set out to delete it. */
  lemma FreedOnce(s: State, a: Action, o: nat)
    requires Inv(s) && Enabled(s, a) && |s.pointers| <= s.modulus && o < |s.objects|
    ensures Next(s, a).objects[o].deletions <= 1
    ensures Next(s, a).objects[o].deletions != s.objects[o].deletions ==>
              a.Step? && s.threads[a.t].task.Running? && s.threads[a.t].task.at == Free(o) && s.objects[o].deletions == 0
  {
    hide Inv;
    StepKeeps(s, a);
    AtMostOnce(s, o);
    AtMostOnce(Next(s, a), o);
  }

  lemma AtMostOnce(s: State, o: nat)
    requires Inv(s) && o < |s.objects|
    ensures s.objects[o].deletions <= 1
  {
    assert ObjectInvariant(s, o);
  }

  /**
     When every thread is idle and holds no object of its own, exactly the objects without an owner have been
     freed, and the global counter is the number of the others.
   */
  lemma NothingLeaks(s: State)
    requires Inv(s) && forall t :: 0 <= t < |s.threads| ==> s.threads[t] == Thread({}, Idle)
    ensures forall o :: 0 <= o < |s.objects| ==> s.objects[o].deletions == (if Owners(s.pointers, o) == {} then 1 else 0)
    ensures s.live == |set o | 0 <= o < |s.objects| && Owners(s.pointers, o) != {}| % LIVE_MODULUS
  {
    forall o | 0 <= o < |s.objects|
      ensures s.objects[o].deletions == (if Owners(s.pointers, o) == {} then 1 else 0)
      ensures Registered(s, o) <==> Owners(s.pointers, o) != {}
    {
      assert ObjectInvariant(s, o);
    }
    assert AllRegistered(s) == set o | 0 <= o < |s.objects| && Owners(s.pointers, o) != {};
  }
}
