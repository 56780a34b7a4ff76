/**
 The IDL linker: a depth-first search over mutable interface objects that gathers every interface's
 ancestors and reports undefined parents, inheritance cycles and member-name conflicts.

 The linker walks several QMaps. The model walks them in an arbitrary order, so every result below
 holds for the sorted order of the original as well.
 */
module Linker {
  import opened InheritanceGraph
  import opened MemberCounting
  import opened LinkReport
  import opened LinkSearch
  import opened Sequences

  class Intf {
    var mark: bool
    var completed: bool
    const name: Name
    const members: map<Name, Member>
    const parents: seq<Name>
    var ancestors: map<Name, Intf>

    constructor (node: Decl)
      ensures !mark && !completed && ancestors == map[]
      ensures name == node.name && parents == node.parents
      ensures members.Keys == MemberNames(node.members)
      ensures forall m :: m in members ==> members[m].name == m
    {
      var table: map<Name, Member> := map[];
      var i := 0;
      while i < |node.members|
        invariant 0 <= i <= |node.members|
        invariant table.Keys == MemberNames(node.members[..i])
        invariant forall m :: m in table ==> table[m].name == m
      {
        table := table[node.members[i].name := node.members[i]];
        assert node.members[..i + 1] == node.members[..i] + [node.members[i]];
        i := i + 1;
      }
      assert node.members[..i] == node.members;
      var list: seq<Name> := [];
      i := 0;
      while i < |node.parents|
        invariant 0 <= i <= |node.parents|
        invariant list == node.parents[..i]
      {
        list := list + [node.parents[i]];
        i := i + 1;
      }
      mark, completed, name, members, parents, ancestors := false, false, node.name, table, list, map[];
    }

    /** The object as a node of the graph. */
    function AsNode(): Node {
      Node(parents, members.Keys)
    }

    /** The part of the object that the search changes. */
    ghost function AsProgress(): Progress
      reads this
    {
      Progress(mark, completed, ancestors.Keys)
    }
  }

  predicate MembersNamed(intf: Intf) {
    forall m :: m in intf.members ==> intf.members[m].name == m
  }

  class IDLc {
    var symTbl: map<Name, Intf>
    var errors: seq<LinkError>

    constructor ()
      ensures symTbl == map[] && errors == []
    {
      symTbl, errors := map[], [];
    }

    ghost function Graph(): Table
      reads this`symTbl
    {
      map n | n in symTbl :: symTbl[n].AsNode()
    }

    ghost function Colours(): Colouring
      reads this`symTbl, symTbl.Values
    {
      map n | n in symTbl :: symTbl[n].AsProgress()
    }

    /** Names agree with keys, and an ancestor entry is the object of that name. */
    ghost predicate Consistent()
      reads this`symTbl, symTbl.Values`ancestors
    {
      && (forall n :: n in symTbl ==> symTbl[n].name == n && MembersNamed(symTbl[n]))
      && (forall n, a :: n in symTbl && a in symTbl[n].ancestors ==> a in symTbl && symTbl[n].ancestors[a] == symTbl[a])
    }

    lemma Named(n: Name)
      requires Consistent() && n in symTbl
      ensures symTbl[n].name == n && n in Graph() && Graph()[n] == symTbl[n].AsNode()
      ensures n in Colours() && Colours()[n] == symTbl[n].AsProgress()
    {
    }

    /** The colouring after a change to no more than the interface n. */
    twostate lemma Recoloured(n: Name)
      requires Consistent() && symTbl == old(symTbl) && n in symTbl
      requires forall m :: m in symTbl && symTbl[m] != symTbl[n] ==> symTbl[m].AsProgress() == old(symTbl[m].AsProgress())
      ensures Graph() == old(Graph())
      ensures Colours() == old(Colours())[n := symTbl[n].AsProgress()]
    {
    }

    lemma ColourOf()
      ensures forall n :: n in symTbl ==> n in Colours() && Colours()[n].ancestors == symTbl[n].ancestors.Keys
    {
    }

    /** Walks the members of one ancestor, reporting those whose name was already taken. */
    method AddMembers(intfName: Name, nameP: Name, membersP: map<Name, Member>, taken: map<Name, Name>)
      returns (symMap: map<Name, Name>, ghost added: seq<LinkError>)
      requires forall m :: m in membersP ==> membersP[m].name == m
      modifies this`errors
      ensures forall m :: m in symMap <==> m in taken || m in membersP
      ensures forall m :: m in symMap ==> symMap[m] == if m in taken then taken[m] else nameP
      ensures errors == old(errors) + added
      ensures |added| == |taken| + |membersP| - |symMap|
      ensures forall e :: e in added ==> ClashOf(e, intfName, nameP, membersP.Keys, taken)
    {
      symMap, added := taken, [];
      var todo := membersP.Keys;
      ghost var done: set<Name> := {};
      while todo != {}
        invariant forall m :: m in membersP <==> m in done || m in todo
        invariant forall m :: m in todo ==> m !in done
        invariant forall m :: m in symMap <==> m in taken || m in done
        invariant forall m :: m in symMap ==> symMap[m] == if m in taken then taken[m] else nameP
        invariant errors == old(errors) + added
        invariant |added| == |taken| + |done| - |symMap|
        invariant forall e :: e in added ==> ClashOf(e, intfName, nameP, membersP.Keys, taken)
      {
        var m :| m in todo;
        var memberName := membersP[m].name;
        if memberName in symMap {
          var e := MemberConflict(intfName, symMap[memberName], nameP, memberName);
          errors, added := errors + [e], added + [e];
        } else {
          symMap := symMap[memberName := nameP];
        }
        done, todo := done + {m}, todo - {m};
      }
      assert done == membersP.Keys;
    }

    /**
     Reports every member name met a second time while walking the interface's own members and then
     those of its ancestors.
     */
    method ReportConflicts(intf: Intf) returns (ghost added: seq<LinkError>)
      requires intf.name in symTbl && symTbl[intf.name] == intf && MembersNamed(intf)
      requires forall a :: a in intf.ancestors ==>
                 && a in symTbl && intf.ancestors[a] == symTbl[a] && MembersNamed(symTbl[a])
                 && Reaches(Graph(), intf.name, a)
      modifies this`errors
      ensures errors == old(errors) + added
      ensures |added| == Repeated(Graph(), intf.name, intf.ancestors.Keys)
      ensures AllAbout(Graph(), added, intf.name)
    {
      hide Reaches, Repeated, AllAbout, Walked, TotalMembers;
      ghost var g := Graph();
      added := [];
      var symMap := OwnMembers(intf);
      WalkStart(g, intf.name, symMap);
      var names := intf.ancestors.Keys;
      ghost var done: set<Name> := {};
      while names != {}
        invariant forall a :: a in intf.ancestors <==> a in done || a in names
        invariant forall a :: a in names ==> a !in done
        invariant done <= g.Keys
        invariant Walked(g, intf.name, done, symMap)
        invariant errors == old(errors) + added
        invariant |added| == |intf.members| + TotalMembers(g, done) - |symMap|
        invariant AllAbout(g, added, intf.name)
      {
        var nameP :| nameP in names;
        ghost var taken := symMap;
        ghost var clashes;
        symMap, clashes := AddMembers(intf.name, nameP, intf.ancestors[nameP].members, symMap);
        WalkStep(g, intf.name, done, nameP, taken, symMap);
        ClashesJustified(g, intf.name, done, nameP, taken, clashes);
        TotalWith(g, done, nameP);
        Associative(old(errors), added, clashes);
        AllAboutConcat(g, added, clashes, intf.name);
        added := added + clashes;
        done, names := done + {nameP}, names - {nameP};
      }
      assert done == intf.ancestors.Keys;
      WalkEnd(g, intf.name, done, symMap);
    }

    /** Enters the interface's own members; their keys are distinct, so none is ever repeated. */
    method OwnMembers(intf: Intf) returns (symMap: map<Name, Name>)
      requires forall m :: m in intf.members ==> intf.members[m].name == m
      ensures symMap == map m | m in intf.members :: intf.name
    {
      symMap := map[];
      var todo := intf.members.Keys;
      while todo != {}
        invariant todo <= intf.members.Keys
        invariant symMap == map m | m in intf.members && m !in todo :: intf.name
      {
        var m :| m in todo;
        var memberName := intf.members[m].name;
        symMap := symMap[memberName := intf.name];
        todo := todo - {m};
      }
    }

    /** Copies the ancestors of intfP, and intfP itself, into intf. */
    method GatherFrom(intf: Intf, intfP: Intf)
      requires Consistent() && intf.name in symTbl && symTbl[intf.name] == intf
      requires intfP.name in symTbl && symTbl[intfP.name] == intfP
      modifies intf`ancestors
      ensures Consistent()
      ensures Colours() == old(Colours())[intf.name := old(intf.AsProgress()).(
                             ancestors := old(intf.ancestors.Keys + intfP.ancestors.Keys) + {intfP.name})]
    {
      hide Colours, Graph;
      CopyAncestors(intf, intfP.ancestors);
      intf.ancestors := intf.ancestors[intfP.name := intfP];
      assert intf.ancestors.Keys == old(intf.ancestors.Keys + intfP.ancestors.Keys) + {intfP.name};
      Recoloured(intf.name);
    }

    method CopyAncestors(intf: Intf, inherited: map<Name, Intf>)
      requires forall a :: a in intf.ancestors ==> a in symTbl && intf.ancestors[a] == symTbl[a]
      requires forall a :: a in inherited ==> a in symTbl && inherited[a] == symTbl[a] && symTbl[a].name == a
      modifies intf`ancestors
      ensures intf.ancestors.Keys == old(intf.ancestors.Keys) + inherited.Keys
      ensures forall a :: a in intf.ancestors ==> a in symTbl && intf.ancestors[a] == symTbl[a]
    {
      var todo := inherited.Keys;
      while todo != {}
        invariant todo <= inherited.Keys
        invariant forall a :: a in intf.ancestors <==> a in old(intf.ancestors) || (a in inherited && a !in todo)
        invariant forall a :: a in intf.ancestors ==> a in symTbl && intf.ancestors[a] == symTbl[a]
      {
        var a :| a in todo;
        var ancestor := inherited[a];
        intf.ancestors := intf.ancestors[ancestor.name := ancestor];
        todo := todo - {a};
      }
    }

    /**
     Visits an interface. The stack is the chain of interfaces being visited; it is the path that makes a
     reported cycle real.
     */
    method ProcessIntf(intf: Intf, ghost stack: seq<Name>)
      requires Consistent() && Searching(Graph(), Colours(), errors, stack)
      requires intf.name in symTbl && symTbl[intf.name] == intf && Visitable(Graph(), stack, intf.name)
      modifies this`errors, symTbl.Values
      ensures Consistent() && Searching(Graph(), Colours(), errors, stack)
      ensures Extends(old(errors), errors) && Settled(old(Colours()), Colours())
      ensures old(intf.mark) ==> CyclicInheritance(intf.name) in errors
      ensures !old(intf.mark) ==> intf.completed
      decreases Unvisited(Colours()), 0
    {
      hide Searching, Gathered, Settled, SettledBut, Extends, Colours, Consistent;
      ghost var g := Graph();
      ghost var s0 := Colours();
      Named(intf.name);
      SettledReflexive(s0, intf.name);
      ExtendsReflexive(errors);
      if intf.mark {
        ExtendsByOne(errors, CyclicInheritance(intf.name));
        CycleStep(g, s0, errors, stack, intf.name);
        errors := errors + [CyclicInheritance(intf.name)];
        return;
      }
      if intf.completed {
        return;
      }
      EnterStep(g, s0, errors, stack, intf.name);
      intf.mark := true;
      ghost var s1 := Colours();
      Recoloured(intf.name);
      assert s1 == s0[intf.name := s0[intf.name].(mark := true)];
      EnterSets(s0, intf.name);
      SettledReflexive(s1, intf.name);
      StartGathering(g, s0, s1, errors, stack, intf.name);
      var i := 0;
      while i < |intf.parents|
        invariant 0 <= i <= |intf.parents| && intf.name in Colours()
        invariant Consistent() && Searching(g, Colours(), errors, stack + [intf.name])
        invariant Extends(old(errors), errors) && SettledBut(s1, Colours(), intf.name)
        invariant Gathered(g, Colours(), errors, intf.name, intf.parents[..i])
      {
        ghost var s, messages := Colours(), errors;
        SettledMeasure(s1, s, intf.name);
        VisitParent(intf, intf.parents[i], intf.parents[..i], stack);
        SettledTransitive(s1, s, Colours(), intf.name);
        ExtendsTransitive(old(errors), messages, errors);
        TakeOneMore(intf.parents, i);
        Named(intf.name);
        i := i + 1;
      }
      ghost var s, messages := Colours(), errors;
      TakeAll(intf.parents);
      Complete(intf, stack);
      ExtendsTransitive(old(errors), messages, errors);
      SettledTransitive(s1, s, Colours(), intf.name);
      SettledVisit(s0, s1, Colours(), intf.name);
    }

    /** One turn of the loop over the parents of intf, the interface on top of the stack. */
    method VisitParent(intf: Intf, parent: Name, ghost before: seq<Name>, ghost below: seq<Name>)
      requires Consistent() && Searching(Graph(), Colours(), errors, below + [intf.name])
      requires intf.name in symTbl && symTbl[intf.name] == intf && parent in intf.parents
      requires Gathered(Graph(), Colours(), errors, intf.name, before)
      modifies this`errors, symTbl.Values
      ensures Consistent() && Searching(Graph(), Colours(), errors, below + [intf.name])
      ensures Extends(old(errors), errors) && SettledBut(old(Colours()), Colours(), intf.name)
      ensures Gathered(Graph(), Colours(), errors, intf.name, before + [parent])
      decreases Unvisited(Colours()), 1
    {
      hide Searching, Gathered, Settled, SettledBut;
      ghost var g, s, start, stack := Graph(), Colours(), errors, below + [intf.name];
      SettledReflexive(s, intf.name);
      if parent !in symTbl {
        assert intf.name in g && parent in g[intf.name].parents;
        AppendMessage(g, s, errors, stack, UndefinedSymbol(parent));
        GatheredUndefined(g, s, errors, intf.name, before, parent);
        errors := errors + [UndefinedSymbol(parent)];
        return;
      }
      var intfP := symTbl[parent];
      TopOk(g, s, errors, below, intf.name);
      ProcessIntf(intfP, stack);
      ghost var s' := Colours();
      if NoCycleReported(errors) {
        CompletedAncestors(g, s', errors, stack, parent);
      }
      GatherFrom(intf, intfP);
      GatheredParent(g, s, start, s', errors, intf.name, before, parent);
      GatherStep(g, s', errors, below, intf.name, parent);
      SettledButTop(s, s', intf.name, s'[intf.name].ancestors + s'[parent].ancestors + {parent});
    }

    /** Leaves intf: unmarks it, reports the conflicts in its family and completes it. */
    method Complete(intf: Intf, ghost stack: seq<Name>)
      requires Consistent() && Searching(Graph(), Colours(), errors, stack + [intf.name])
      requires intf.name in symTbl && symTbl[intf.name] == intf && intf.name !in stack
      requires Gathered(Graph(), Colours(), errors, intf.name, intf.parents)
      modifies this`errors, intf`mark, intf`completed
      ensures Consistent() && Searching(Graph(), Colours(), errors, stack)
      ensures Extends(old(errors), errors) && SettledBut(old(Colours()), Colours(), intf.name)
      ensures intf.completed
    {
      hide Searching, Gathered, SettledBut, AllAbout, Repeated, Extends, Colours;
      ghost var g, s, start := Graph(), Colours(), errors;
      Named(intf.name);
      TopOk(g, s, errors, stack, intf.name);
      intf.mark := false;
      ghost var added := ReportConflicts(intf);
      intf.completed := true;
      ExtendsByConflicts(g, start, added, intf.name);
      FinishStep(g, s, start, stack, intf.name, added);
      Recoloured(intf.name);
      SettledByFinish(s, intf.name);
    }

    /** Enters the declarations into the symbol table; a name already taken is reported and skipped. */
    method Declare(elements: seq<Decl>)
      requires symTbl == map[] && errors == []
      modifies this
      ensures Consistent() && forall n :: n in symTbl ==> fresh(symTbl[n])
      ensures Graph() == TableOf(elements) && Colours() == map n | n in Graph() :: FRESH
      ensures forall e :: e in errors ==> e.DuplicatedSymbol? && e.symbol in Graph()
      ensures errors == [] <==> DistinctNames(elements)
    {
      hide TableOf, DistinctNames, NodeOf;
      DeclareNothing(elements);
      var i := 0;
      while i < |elements|
        invariant 0 <= i <= |elements|
        invariant Consistent() && forall n :: n in symTbl ==> fresh(symTbl[n])
        invariant Graph() == TableOf(elements[..i])
        invariant forall n :: n in symTbl ==> symTbl[n].AsProgress() == FRESH
        invariant forall e :: e in errors ==> e.DuplicatedSymbol? && e.symbol in symTbl
        invariant errors == [] <==> DistinctNames(elements[..i])
      {
        DeclareStep(elements, i);
        DeclareOne(elements[i]);
        i := i + 1;
      }
      TakeAll(elements);
    }

    lemma DeclareNothing(elements: seq<Decl>)
      ensures TableOf(elements[..0]) == map[] && DistinctNames(elements[..0])
    {
    }

    method DeclareOne(elt: Decl)
      requires Consistent()
      modifies this
      ensures Consistent()
      ensures Graph() == if elt.name in old(symTbl) then old(Graph()) else old(Graph())[elt.name := NodeOf(elt)]
      ensures errors == if elt.name in old(symTbl) then old(errors) + [DuplicatedSymbol(elt.name)] else old(errors)
      ensures symTbl.Keys == old(symTbl.Keys) + {elt.name}
      ensures forall n :: n in symTbl ==>
                if n in old(symTbl) then symTbl[n] == old(symTbl[n]) else fresh(symTbl[n]) && symTbl[n].AsProgress() == FRESH
    {
      var intf := new Intf(elt);
      if intf.name in symTbl {
        errors := errors + [DuplicatedSymbol(intf.name)];
      } else {
        symTbl := symTbl[intf.name := intf];
      }
    }

    /** Visits every interface of the table. */
    method ProcessAll()
      requires Consistent() && Searching(Graph(), Colours(), errors, [])
      modifies this`errors, symTbl.Values
      ensures Consistent() && Searching(Graph(), Colours(), errors, [])
      ensures Extends(old(errors), errors)
      ensures forall n :: n in Graph() ==> Colours()[n].completed
    {
      hide Searching, Settled, Visitable, Extends, Consistent;
      ExtendsReflexive(errors);
      assert Colours().Keys == symTbl.Keys == Graph().Keys;
      var todo := symTbl.Keys;
      ghost var done: set<Name> := {};
      while todo != {}
        invariant todo <= symTbl.Keys && done == symTbl.Keys - todo
        invariant Consistent() && Searching(Graph(), Colours(), errors, [])
        invariant Extends(old(errors), errors)
        invariant forall n :: n in done ==> Colours()[n].completed
      {
        var n :| n in todo;
        ghost var s, messages := Colours(), errors;
        Named(n);
        NoneMarked(Graph(), s, errors, n);
        ProcessIntf(symTbl[n], []);
        StillCompleted(s, Colours(), done, n);
        ExtendsTransitive(old(errors), messages, errors);
        done, todo := done + {n}, todo - {n};
      }
    }

    /**
     Links the declarations. The verdict is positive exactly when they are linkable, and then every
     interface's ancestors are the interfaces it reaches. Every message is justified, and each kind of
     fault that the declarations have is reported.
     */
    method Link(elements: seq<Decl>) returns (ok: bool)
      requires symTbl == map[] && errors == []
      modifies this
      ensures Graph() == TableOf(elements) && Consistent()
      ensures ok <==> errors == []
      ensures ok <==> Linkable(elements)
      ensures forall e :: e in errors ==> Justified(Graph(), e)
      ensures (exists e :: e in errors && e.DuplicatedSymbol?) <==> !DistinctNames(elements)
      ensures NoCycleReported(errors) <==> Acyclic(Graph())
      ensures forall p :: UndefinedSymbol(p) in errors <==>
                p !in Graph() && exists n :: n in Graph() && p in Graph()[n].parents
      ensures Acyclic(Graph()) ==> forall n :: n in symTbl ==> Exact(Graph(), symTbl[n].ancestors.Keys, errors, n)
    {
      hide Searching, Exact, NoCycleReported, Justified, Acyclic, AllParentsDefined, ConflictFree, Extends;
      Declare(elements);
      ghost var duplicated := errors;
      StartSearch(Graph(), Colours(), errors);
      ProcessAll();
      LinkVerdict(Graph(), Colours(), duplicated, errors);
      ColourOf();
      ok := errors == [];
    }
  }
}
