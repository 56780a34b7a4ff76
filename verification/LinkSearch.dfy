/**
 The depth-first search of the linker on values: the colour and the ancestors of every interface, the
 messages so far and the stack of marked interfaces. Each step of the search keeps `Searching`.
 */
module LinkSearch {
  import opened InheritanceGraph
  import opened LinkReport
  import opened MemberCounting

  /** The fields of an interface that the search changes. */
  datatype Progress = Progress(mark: bool, completed: bool, ancestors: set<Name>)

  type Colouring = map<Name, Progress>

  const FRESH := Progress(false, false, {})

  function Completed(s: Colouring): set<Name> {
    set n | n in s && s[n].completed
  }

  /** The names the search has not entered yet: the measure of its recursion. */
  function Unvisited(s: Colouring): set<Name> {
    set n | n in s && !s[n].mark && !s[n].completed
  }

  ghost predicate AncestorsSound(g: Table, ancestors: set<Name>, n: Name) {
    forall a :: a in ancestors ==> a in g && Reaches(g, n, a)
  }

  ghost predicate UndefinedReported(g: Table, parents: seq<Name>, errors: seq<LinkError>) {
    forall p :: p in parents && p !in g ==> UndefinedSymbol(p) in errors
  }

  /** What is known of an interface whose processing is over. */
  ghost predicate Finished(g: Table, ancestors: set<Name>, errors: seq<LinkError>, n: Name)
    requires n in g && AncestorsSound(g, ancestors, n)
  {
    && UndefinedReported(g, g[n].parents, errors)
    && Conflicts(errors, n) == Repeated(g, n, ancestors)
    && (NoCycleReported(errors) ==> ancestors == AncestorsOf(g, n) && !Reaches(g, n, n))
  }

  /** What is known of an interface at any time; it is marked exactly while it is on the stack. */
  ghost predicate NodeOk(g: Table, pr: Progress, errors: seq<LinkError>, n: Name, onStack: bool)
    requires n in g
  {
    && (pr.mark <==> onStack)
    && AncestorsSound(g, pr.ancestors, n)
    && (!pr.completed ==> Conflicts(errors, n) == 0)
    && (!pr.completed && !pr.mark ==> pr.ancestors == {})
    && (pr.completed ==> !pr.mark && Finished(g, pr.ancestors, errors, n))
  }

  /**
     The stack is a path of the graph and holds exactly the marked interfaces; as long as no cycle was
     reported, the completed ones lead to completed ones only.
   */
  ghost predicate Searching(g: Table, s: Colouring, errors: seq<LinkError>, stack: seq<Name>) {
    && s.Keys == g.Keys
    && (forall n :: n in stack ==> n in g)
    && IsPath(g, stack)
    && (forall n :: n in g ==> NodeOk(g, s[n], errors, n, n in stack))
    && (NoCycleReported(errors) ==> Closed(g, Completed(s)))
    && (forall e :: e in errors ==> Justified(g, e))
  }

  /** What a visit leaves alone: marked and completed interfaces, and nothing becomes unvisited again. */
  predicate Settled(s: Colouring, s': Colouring) {
    && s.Keys == s'.Keys
    && (forall n :: n in s && s[n].completed ==> s'[n] == s[n])
    && (forall n :: n in s && s[n].mark ==> s'[n] == s[n])
    && Unvisited(s') <= Unvisited(s)
  }

  /** The same for everything but the interface on top of the stack. */
  predicate SettledBut(s: Colouring, s': Colouring, top: Name) {
    && s.Keys == s'.Keys
    && (forall n :: n in s && n != top && (s[n].completed || s[n].mark) ==> s'[n] == s[n])
    && Unvisited(s') <= Unvisited(s)
  }

  lemma SettledReflexive(s: Colouring, top: Name)
    ensures Settled(s, s) && SettledBut(s, s, top)
  {
  }

  lemma SettledTransitive(s: Colouring, s': Colouring, s'': Colouring, top: Name)
    requires SettledBut(s, s', top) && SettledBut(s', s'', top)
    ensures SettledBut(s, s'', top)
  {
  }

  lemma SettledMeasure(s: Colouring, s': Colouring, top: Name)
    requires SettledBut(s, s', top)
    ensures Unvisited(s') <= Unvisited(s)
  {
  }

  /** Once visited, the interface that was on top may have changed only if it was neither marked nor completed. */
  lemma SettledVisit(s: Colouring, s': Colouring, s'': Colouring, top: Name)
    requires top in Unvisited(s) && s' == s[top := s[top].(mark := true)] && SettledBut(s', s'', top)
    ensures Settled(s, s'')
  {
    EnterSets(s, top);
  }

  lemma SettledButTop(s: Colouring, s': Colouring, top: Name, ancestors: set<Name>)
    requires top in s && s[top].mark && Settled(s, s')
    ensures top in s' && SettledBut(s, s'[top := s'[top].(ancestors := ancestors)], top)
  {
  }

  lemma SettledByFinish(s: Colouring, n: Name)
    requires n in s && s[n].mark
    ensures SettledBut(s, s[n := Progress(false, true, s[n].ancestors)], n)
  {
    FinishSets(s, n);
  }

  /** n may be visited from the top of the stack. */
  ghost predicate Visitable(g: Table, stack: seq<Name>, n: Name) {
    n in g && (stack != [] ==> Edge(g, stack[|stack| - 1], n))
  }

  lemma StartSearch(g: Table, s: Colouring, errors: seq<LinkError>)
    requires s == map n | n in g :: FRESH
    requires forall e :: e in errors ==> e.DuplicatedSymbol? && e.symbol in g
    ensures Searching(g, s, errors, [])
  {
    forall n
      ensures Conflicts(errors, n) == 0
    {
      if Conflicts(errors, n) > 0 {
        var e := ConflictBehindCount(errors, n);
      }
    }
  }

  lemma ExtendPath(g: Table, stack: seq<Name>, n: Name)
    requires IsPath(g, stack) && Visitable(g, stack, n)
    ensures IsPath(g, stack + [n])
  {
    var p := stack + [n];
    forall i | 0 <= i < |p| - 1
      ensures Edge(g, p[i], p[i + 1])
    {
      if i + 1 < |stack| {
        assert Edge(g, stack[i], stack[i + 1]);
      }
    }
  }

  /** Visiting a marked interface: the stack closes a real cycle. */
  lemma CycleStep(g: Table, s: Colouring, errors: seq<LinkError>, stack: seq<Name>, n: Name)
    requires Searching(g, s, errors, stack) && Visitable(g, stack, n) && s[n].mark
    ensures Searching(g, s, errors + [CyclicInheritance(n)], stack)
  {
    var i :| 0 <= i < |stack| && stack[i] == n;
    ExtendPath(g, stack, n);
    PathReaches(g, stack + [n], i, |stack|);
    AppendMessage(g, s, errors, stack, CyclicInheritance(n));
  }

  /** Any justified message other than a conflict may be appended. */
  lemma AppendMessage(g: Table, s: Colouring, errors: seq<LinkError>, stack: seq<Name>, e: LinkError)
    requires Searching(g, s, errors, stack) && Justified(g, e) && !e.MemberConflict?
    ensures Searching(g, s, errors + [e], stack)
  {
    forall n | n in g
      ensures NodeOk(g, s[n], errors + [e], n, n in stack)
    {
      ConflictsOfAppend(errors, e, n);
      NodeOkMonotone(g, s[n], errors, errors + [e], n, n in stack);
    }
    assert NoCycleReported(errors + [e]) ==> NoCycleReported(errors);
  }

  lemma NodeOkMonotone(g: Table, pr: Progress, errors: seq<LinkError>, errors': seq<LinkError>, n: Name,
                       onStack: bool)
    requires n in g && NodeOk(g, pr, errors, n, onStack)
    requires errors <= errors' && Conflicts(errors', n) == Conflicts(errors, n)
    ensures NodeOk(g, pr, errors', n, onStack)
  {
    assert forall e :: e in errors ==> e in errors';
  }

  /** Marking an interface that was not visited yet. */
  lemma EnterStep(g: Table, s: Colouring, errors: seq<LinkError>, stack: seq<Name>, n: Name)
    requires Searching(g, s, errors, stack) && Visitable(g, stack, n) && n in Unvisited(s)
    ensures Searching(g, s[n := s[n].(mark := true)], errors, stack + [n])
  {
    ExtendPath(g, stack, n);
    EnterNodes(g, s, errors, stack, n);
    EnterSets(s, n);
  }

  lemma EnterSets(s: Colouring, n: Name)
    requires n in Unvisited(s)
    ensures Completed(s[n := s[n].(mark := true)]) == Completed(s)
    ensures Unvisited(s[n := s[n].(mark := true)]) == Unvisited(s) - {n}
  {
  }

  lemma EnterNodes(g: Table, s: Colouring, errors: seq<LinkError>, stack: seq<Name>, n: Name)
    requires s.Keys == g.Keys && n in Unvisited(s)
    requires forall m :: m in g ==> NodeOk(g, s[m], errors, m, m in stack)
    ensures forall m :: m in g ==> NodeOk(g, s[n := s[n].(mark := true)][m], errors, m, m in stack + [n])
  {
    forall m | m in g
      ensures NodeOk(g, s[n := s[n].(mark := true)][m], errors, m, m in stack + [n])
    {
      assert m in stack + [n] <==> m in stack || m == n;
      assert NodeOk(g, s[m], errors, m, m in stack);
    }
  }

  /** Copying the ancestors of a parent, and the parent itself, into the interface on top of the stack. */
  lemma GatherStep(g: Table, s: Colouring, errors: seq<LinkError>, stack: seq<Name>, n: Name, p: Name)
    requires Searching(g, s, errors, stack + [n]) && Edge(g, n, p)
    ensures Searching(g, s[n := s[n].(ancestors := s[n].ancestors + s[p].ancestors + {p})], errors, stack + [n])
  {
    var s' := s[n := s[n].(ancestors := s[n].ancestors + s[p].ancestors + {p})];
    assert n in stack + [n];
    assert NodeOk(g, s[n], errors, n, true);
    assert NodeOk(g, s[p], errors, p, p in stack + [n]);
    EdgeReaches(g, n, p);
    forall a | a in s'[n].ancestors
      ensures a in g && Reaches(g, n, a)
    {
      if a in s[p].ancestors {
        ReachesTransitive(g, n, p, a);
      }
    }
    assert Completed(s') == Completed(s);
  }

  /** How far the loop over the parents of n has come. */
  ghost predicate Gathered(g: Table, s: Colouring, errors: seq<LinkError>, n: Name, parents: seq<Name>)
    requires n in s
  {
    && UndefinedReported(g, parents, errors)
    && (NoCycleReported(errors) ==>
          && s[n].ancestors == ParentClosure(g, parents)
          && forall p :: p in parents && p in g ==> p in s && s[p].completed)
  }

  lemma StartGathering(g: Table, s: Colouring, s': Colouring, errors: seq<LinkError>, stack: seq<Name>, n: Name)
    requires Searching(g, s, errors, stack) && n in Unvisited(s) && n in g
    requires s' == s[n := s[n].(mark := true)]
    ensures Gathered(g, s', errors, n, []) && n !in stack
  {
    assert NodeOk(g, s[n], errors, n, n in stack);
    assert ParentClosure(g, []) == {};
  }

  lemma ParentClosureAppend(g: Table, parents: seq<Name>, p: Name)
    ensures ParentClosure(g, parents + [p]) ==
            ParentClosure(g, parents) + if p in g then AncestorsOf(g, p) + {p} else {}
  {
    var c, c' := ParentClosure(g, parents), ParentClosure(g, parents + [p]);
    forall b | b in c'
      ensures b in c || (p in g && (b == p || b in AncestorsOf(g, p)))
    {
      var q :| q in parents + [p] && q in g && (b == q || b in AncestorsOf(g, q));
      assert q in parents || q == p;
    }
    forall b | b in c || (p in g && (b == p || b in AncestorsOf(g, p)))
      ensures b in c'
    {
      if b in c {
        var q :| q in parents && q in g && (b == q || b in AncestorsOf(g, q));
        assert q in parents + [p];
      } else {
        assert p in parents + [p];
      }
    }
  }

  lemma GatheredUndefined(g: Table, s: Colouring, errors: seq<LinkError>, n: Name, parents: seq<Name>, p: Name)
    requires n in s && Gathered(g, s, errors, n, parents) && p !in g
    ensures Gathered(g, s, errors + [UndefinedSymbol(p)], n, parents + [p])
  {
    var errors' := errors + [UndefinedSymbol(p)];
    assert UndefinedSymbol(p) in errors';
    assert forall e :: e in errors ==> e in errors';
    ParentClosureAppend(g, parents, p);
  }

  /** One more parent visited and copied. */
  lemma GatheredParent(g: Table, s: Colouring, errors: seq<LinkError>, s': Colouring, errors': seq<LinkError>,
                       n: Name, parents: seq<Name>, p: Name)
    requires n in s && Gathered(g, s, errors, n, parents) && s[n].mark && p in g && p in s'
    requires Settled(s, s') && errors <= errors'
    requires NoCycleReported(errors') ==> s'[p].completed && s'[p].ancestors == AncestorsOf(g, p)
    ensures Gathered(g, s'[n := s'[n].(ancestors := s'[n].ancestors + s'[p].ancestors + {p})], errors', n, parents + [p])
  {
    assert forall e :: e in errors ==> e in errors';
    ParentClosureAppend(g, parents, p);
  }

  lemma CompletedAncestors(g: Table, s: Colouring, errors: seq<LinkError>, stack: seq<Name>, p: Name)
    requires Searching(g, s, errors, stack) && p in g && s[p].completed && NoCycleReported(errors)
    ensures s[p].ancestors == AncestorsOf(g, p)
  {
    assert NodeOk(g, s[p], errors, p, p in stack);
  }

  /** Nothing completed leads back to an interface that is not. */
  lemma ParentsCompletedNoCycle(g: Table, s: Colouring, n: Name)
    requires n in g && n !in Completed(s) && Closed(g, Completed(s))
    requires forall p :: p in g[n].parents && p in g ==> p in s && s[p].completed
    ensures !Reaches(g, n, n)
  {
    if Reaches(g, n, n) {
      var c := ReachesFirstStep(g, n, n);
      if c != n {
        ClosedUnderReaches(g, Completed(s), c, n);
      }
    }
  }

  /** Unmarking and completing the interface on top of the stack, once its conflicts are reported. */
  lemma FinishStep(g: Table, s: Colouring, errors: seq<LinkError>, stack: seq<Name>, n: Name,
                   added: seq<LinkError>)
    requires Searching(g, s, errors, stack + [n]) && n !in stack
    requires Gathered(g, s, errors, n, g[n].parents)
    requires AncestorsSound(g, s[n].ancestors, n)
    requires AllAbout(g, added, n) && |added| == Repeated(g, n, s[n].ancestors)
    ensures Searching(g, s[n := Progress(false, true, s[n].ancestors)], errors + added, stack)
  {
    assert NodeOk(g, s[n], errors, n, n in stack + [n]);
    assert NoCycleReported(errors + added) <==> NoCycleReported(errors);
    PrefixIsPath(g, stack, n);
    FinishNodes(g, s, errors, stack, n, added);
    CloseCompleted(g, s, errors, n);
    FinishSets(s, n);
  }

  lemma TopOk(g: Table, s: Colouring, errors: seq<LinkError>, stack: seq<Name>, n: Name)
    requires Searching(g, s, errors, stack + [n])
    ensures n in s && s[n].mark && AncestorsSound(g, s[n].ancestors, n)
  {
    assert n in stack + [n];
    assert NodeOk(g, s[n], errors, n, n in stack + [n]);
  }

  lemma FinishSets(s: Colouring, n: Name)
    requires n in s && s[n].mark
    ensures Completed(s[n := Progress(false, true, s[n].ancestors)]) == Completed(s) + {n}
    ensures Unvisited(s[n := Progress(false, true, s[n].ancestors)]) == Unvisited(s)
  {
  }

  lemma CloseCompleted(g: Table, s: Colouring, errors: seq<LinkError>, n: Name)
    requires n in g && n in s && Gathered(g, s, errors, n, g[n].parents)
    requires NoCycleReported(errors) ==> Closed(g, Completed(s))
    ensures NoCycleReported(errors) ==> Closed(g, Completed(s) + {n})
  {
  }

  lemma FinishNodes(g: Table, s: Colouring, errors: seq<LinkError>, stack: seq<Name>, n: Name,
                    added: seq<LinkError>)
    requires n in g && s.Keys == g.Keys && n !in stack
    requires forall m :: m in g ==> NodeOk(g, s[m], errors, m, m in stack + [n])
    requires NoCycleReported(errors) ==> Closed(g, Completed(s))
    requires Gathered(g, s, errors, n, g[n].parents)
    requires AncestorsSound(g, s[n].ancestors, n)
    requires AllAbout(g, added, n) && |added| == Repeated(g, n, s[n].ancestors)
    ensures forall m :: m in g ==>
              NodeOk(g, s[n := Progress(false, true, s[n].ancestors)][m], errors + added, m, m in stack)
  {
    var s', errors' := s[n := Progress(false, true, s[n].ancestors)], errors + added;
    forall m | m in g
      ensures NodeOk(g, s'[m], errors', m, m in stack)
    {
      assert m in stack + [n] <==> m in stack || m == n;
      assert NodeOk(g, s[m], errors, m, m in stack + [n]);
      ConflictsOfConcat(errors, added, m);
      ConflictsAllAbout(added, n, m);
      if m == n {
        FinishedNow(g, s, errors, n, errors');
      } else {
        NodeOkMonotone(g, s[m], errors, errors', m, m in stack);
      }
    }
  }

  lemma FinishedNow(g: Table, s: Colouring, errors: seq<LinkError>, n: Name, errors': seq<LinkError>)
    requires n in g && n in s && !s[n].completed && AncestorsSound(g, s[n].ancestors, n)
    requires Gathered(g, s, errors, n, g[n].parents)
    requires errors <= errors' && Conflicts(errors', n) == Repeated(g, n, s[n].ancestors)
    requires NoCycleReported(errors') ==> NoCycleReported(errors) && Closed(g, Completed(s))
    ensures Finished(g, s[n].ancestors, errors', n)
  {
    assert forall e :: e in errors ==> e in errors';
    if NoCycleReported(errors') {
      AncestorsAreParentClosure(g, n);
      ParentsCompletedNoCycle(g, s, n);
    }
  }

  lemma PrefixIsPath(g: Table, stack: seq<Name>, n: Name)
    requires IsPath(g, stack + [n])
    ensures IsPath(g, stack)
  {
    forall i | 0 <= i < |stack| - 1
      ensures Edge(g, stack[i], stack[i + 1])
    {
      assert Edge(g, (stack + [n])[i], (stack + [n])[i + 1]);
    }
  }

  // ---------- The end of the search ----------

  /** Once every interface is completed, the messages tell exactly what is wrong with the graph. */
  lemma VerdictOnParents(g: Table, s: Colouring, errors: seq<LinkError>)
    requires Searching(g, s, errors, []) && forall n :: n in g ==> s[n].completed
    ensures NoCycleReported(errors) <==> Acyclic(g)
    ensures forall p :: UndefinedSymbol(p) in errors <==> p !in g && exists n :: n in g && p in g[n].parents
  {
    if NoCycleReported(errors) {
      forall n | n in g
        ensures !Reaches(g, n, n)
      {
        assert NodeOk(g, s[n], errors, n, n in []);
      }
    } else {
      var e :| e in errors && e.CyclicInheritance?;
      assert Justified(g, e);
      ReachesWithinTable(g, e.intf, e.intf);
    }
    forall n, p | n in g && p in g[n].parents && p !in g
      ensures UndefinedSymbol(p) in errors
    {
      assert NodeOk(g, s[n], errors, n, n in []);
    }
    forall p | UndefinedSymbol(p) in errors
      ensures p !in g && exists n :: n in g && p in g[n].parents
    {
      assert Justified(g, UndefinedSymbol(p));
    }
  }

  /** In an acyclic graph the gathered ancestors are exact, and so is the number of conflict messages. */
  lemma VerdictOnFamily(g: Table, s: Colouring, errors: seq<LinkError>, n: Name)
    requires Searching(g, s, errors, []) && n in g && s[n].completed && Acyclic(g) && NoCycleReported(errors)
    ensures s[n].ancestors == AncestorsOf(g, n)
    ensures Conflicts(errors, n) == TotalMembers(g, Family(g, n)) - |UnionMembers(g, Family(g, n))|
    ensures Conflicts(errors, n) == 0 <==> DisjointMembers(g, Family(g, n))
  {
    assert NodeOk(g, s[n], errors, n, n in []);
    RepeatedOverFamily(g, n, AncestorsOf(g, n));
  }

  lemma VerdictOnConflicts(g: Table, s: Colouring, errors: seq<LinkError>)
    requires Searching(g, s, errors, []) && forall n :: n in g ==> s[n].completed
    requires Acyclic(g)
    ensures (exists e :: e in errors && e.MemberConflict?) <==> !ConflictFree(g)
  {
    VerdictOnParents(g, s, errors);
    if e :| e in errors && e.MemberConflict? {
      ConflictReported(errors, e);
      assert Justified(g, e);
      VerdictOnFamily(g, s, errors, e.intf);
    } else if !ConflictFree(g) {
      var n :| n in g && !DisjointMembers(g, Family(g, n));
      VerdictOnFamily(g, s, errors, n);
      var e := ConflictBehindCount(errors, n);
    }
  }

  lemma NoneMarked(g: Table, s: Colouring, errors: seq<LinkError>, n: Name)
    requires Searching(g, s, errors, []) && n in g
    ensures !s[n].mark && Visitable(g, [], n)
  {
    assert NodeOk(g, s[n], errors, n, n in []);
  }

  /**
   The ancestors gathered for n are those it reaches, and the conflicts reported for it are as many as
   the members of its family beyond the distinct names.
   */
  ghost predicate Exact(g: Table, ancestors: set<Name>, errors: seq<LinkError>, n: Name)
    requires n in g
  {
    && ancestors == AncestorsOf(g, n)
    && Conflicts(errors, n) == TotalMembers(g, Family(g, n)) - |UnionMembers(g, Family(g, n))|
  }

  lemma StillCompleted(s: Colouring, s': Colouring, done: set<Name>, n: Name)
    requires Settled(s, s') && done <= s.Keys && n in s && s'[n].completed
    requires forall m :: m in done ==> s[m].completed
    ensures forall m :: m in done + {n} ==> m in s' && s'[m].completed
  {
  }

  /** The whole verdict, given the messages about duplicates issued before the search. */
  lemma LinkVerdict(g: Table, s: Colouring, duplicated: seq<LinkError>, errors: seq<LinkError>)
    requires Searching(g, s, errors, []) && forall n :: n in g ==> s[n].completed
    requires Extends(duplicated, errors) && forall e :: e in duplicated ==> e.DuplicatedSymbol?
    ensures errors == [] <==> duplicated == [] && AllParentsDefined(g) && Acyclic(g) && ConflictFree(g)
    ensures (exists e :: e in errors && e.DuplicatedSymbol?) <==> duplicated != []
    ensures NoCycleReported(errors) <==> Acyclic(g)
    ensures forall p :: UndefinedSymbol(p) in errors <==> p !in g && exists n :: n in g && p in g[n].parents
    ensures forall e :: e in errors ==> Justified(g, e)
    ensures Acyclic(g) ==> forall n :: n in g ==> Exact(g, s[n].ancestors, errors, n)
  {
    VerdictOnParents(g, s, errors);
    if Acyclic(g) {
      VerdictOnConflicts(g, s, errors);
      forall n | n in g
        ensures Exact(g, s[n].ancestors, errors, n)
      {
        VerdictOnFamily(g, s, errors, n);
      }
    }
    if duplicated != [] {
      assert duplicated[0] in errors;
    } else if errors != [] && AllParentsDefined(g) && Acyclic(g) {
      var e := errors[0];
      assert e in errors && Justified(g, e);
      assert e.UndefinedSymbol? ==> UndefinedSymbol(e.symbol) in errors;
    }
  }
}
