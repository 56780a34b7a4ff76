/**
 Declarations in the order the IDL parser accepts them: each interface inherits only from interfaces
 declared before it. Adding one at the end keeps the list linkable and its closure is known at once.
 */
module EagerClosure {
  import opened InheritanceGraph
  import opened MemberCounting

  /** What the parser holds of a finished interface: its node and the ancestors gathered so far. */
  datatype Entry = Entry(node: Node, ancestors: set<Name>)

  type Entries = map<Name, Entry>

  /** The entries are the table of the declarations, and every gathered set is the real closure. */
  ghost predicate Agree(decls: seq<Decl>, entries: Entries) {
    && Linkable(decls)
    && TableOf(decls) == (map n | n in entries :: entries[n].node)
    && forall n :: n in entries ==> entries[n].ancestors == AncestorsOf(TableOf(decls), n)
  }

  /** What the constructor of an interface gathers from its resolved parents. */
  ghost function Inherited(entries: Entries, parents: seq<Name>): set<Name> {
    set a | a in entries && exists p :: p in parents && p in entries && (a == p || a in entries[p].ancestors)
  }

  lemma InheritedAppend(entries: Entries, parents: seq<Name>, p: Name)
    requires p in entries && entries[p].ancestors <= entries.Keys
    ensures Inherited(entries, parents + [p]) == Inherited(entries, parents) + {p} + entries[p].ancestors
  {
    var x, y := Inherited(entries, parents), Inherited(entries, parents + [p]);
    forall a | a in y
      ensures a in x || a == p || a in entries[p].ancestors
    {
      var q :| q in parents + [p] && q in entries && (a == q || a in entries[q].ancestors);
      assert q in parents || q == p;
    }
    forall a | a in x || a == p || a in entries[p].ancestors
      ensures a in y
    {
      if a in x {
        var q :| q in parents && q in entries && (a == q || a in entries[q].ancestors);
        assert q in parents + [p];
      } else {
        assert p in parents + [p];
      }
    }
  }

  lemma InheritedIsParentClosure(decls: seq<Decl>, entries: Entries, parents: seq<Name>)
    requires Agree(decls, entries)
    ensures Inherited(entries, parents) == ParentClosure(TableOf(decls), parents)
  {
    var t := TableOf(decls);
    forall b | b in t
      ensures b in Inherited(entries, parents) <==> b in ParentClosure(t, parents)
    {
      assert forall p :: p in entries ==> (b in entries[p].ancestors <==> b in AncestorsOf(t, p));
    }
  }

  // ---------- One more interface at the end ----------

  /** t' is t with one more interface whose parents are all in t, as are those of everyone in t. */
  ghost predicate Grows(t: Table, n: Name, node: Node, t': Table) {
    && n !in t && t' == t[n := node]
    && AllParentsDefined(t)
    && forall p :: p in node.parents ==> p in t
  }

  lemma GrownEdge(t: Table, n: Name, node: Node, t': Table, a: Name, b: Name)
    requires Grows(t, n, node, t')
    ensures Edge(t', a, b) <==> Edge(t, a, b) || (a == n && b in node.parents)
  {
  }

  lemma GrownReaches(t: Table, n: Name, node: Node, t': Table, a: Name, b: Name)
    requires Grows(t, n, node, t') && a != n
    ensures Reaches(t', a, b) <==> Reaches(t, a, b)
  {
    if p :| Connects(t', p, a, b) {
      forall i | 0 <= i < |p| - 1
        ensures Edge(t, p[i], p[i + 1])
      {
        var k := 0;
        while k < i
          invariant 0 <= k <= i && p[k] != n
        {
          GrownEdge(t, n, node, t', p[k], p[k + 1]);
          k := k + 1;
        }
        GrownEdge(t, n, node, t', p[i], p[i + 1]);
      }
      assert Connects(t, p, a, b);
    }
    if p :| Connects(t, p, a, b) {
      forall i | 0 <= i < |p| - 1
        ensures Edge(t', p[i], p[i + 1])
      {
        GrownEdge(t, n, node, t', p[i], p[i + 1]);
      }
      assert Connects(t', p, a, b);
    }
  }

  lemma GrownAncestors(t: Table, n: Name, node: Node, t': Table)
    requires Grows(t, n, node, t')
    ensures forall a :: a in t ==> AncestorsOf(t', a) == AncestorsOf(t, a)
    ensures AncestorsOf(t', n) == ParentClosure(t, node.parents)
  {
    forall a | a in t
      ensures AncestorsOf(t', a) == AncestorsOf(t, a)
    {
      forall b
        ensures b in AncestorsOf(t', a) <==> b in AncestorsOf(t, a)
      {
        GrownReaches(t, n, node, t', a, b);
        if Reaches(t', a, b) {
          ReachesWithinTable(t, a, b);
        }
      }
    }
    AncestorsAreParentClosure(t', n);
    GrownClosure(t, n, node, t');
  }

  lemma GrownClosure(t: Table, n: Name, node: Node, t': Table)
    requires Grows(t, n, node, t')
    requires forall a :: a in t ==> AncestorsOf(t', a) == AncestorsOf(t, a)
    ensures ParentClosure(t', node.parents) == ParentClosure(t, node.parents)
  {
    forall b | b in ParentClosure(t', node.parents)
      ensures b in ParentClosure(t, node.parents)
    {
      var p :| p in node.parents && p in t' && (b == p || b in AncestorsOf(t', p));
      assert p in t && (b == p || b in AncestorsOf(t, p));
    }
    forall b | b in ParentClosure(t, node.parents)
      ensures b in ParentClosure(t', node.parents)
    {
      var p :| p in node.parents && p in t && (b == p || b in AncestorsOf(t, p));
      assert p in t' && (b == p || b in AncestorsOf(t', p));
    }
  }

  lemma GrownAcyclic(t: Table, n: Name, node: Node, t': Table)
    requires Grows(t, n, node, t') && Acyclic(t)
    ensures Acyclic(t') && AllParentsDefined(t')
  {
    forall a | a in t'
      ensures !Reaches(t', a, a)
    {
      if a != n {
        GrownReaches(t, n, node, t', a, a);
      } else {
        GrownAncestors(t, n, node, t');
        assert n !in AncestorsOf(t', n);
      }
    }
  }

  /** The conflict check of the parser: the newcomer's members against those of its ancestors. */
  ghost predicate NoConflictWith(t: Table, members: set<Name>, ancestors: set<Name>)
    requires ancestors <= t.Keys
  {
    && DisjointMembers(t, ancestors)
    && forall a :: a in ancestors ==> members !! t[a].members
  }

  lemma GrownConflictFree(t: Table, n: Name, node: Node, t': Table)
    requires Grows(t, n, node, t') && ConflictFree(t)
    requires NoConflictWith(t, node.members, ParentClosure(t, node.parents))
    ensures ConflictFree(t')
  {
    GrownAncestors(t, n, node, t');
    forall a | a in t'
      ensures DisjointMembers(t', Family(t', a))
    {
      if a != n {
        assert DisjointMembers(t, Family(t, a));
        assert Family(t', a) == Family(t, a);
      }
    }
  }

  /**
     Accepting one more declaration: fresh name, parents already accepted, no member conflict within the
     gathered set. The closure gathered eagerly is the one the linker will compute.
   */
  lemma AcceptOne(decls: seq<Decl>, entries: Entries, d: Decl)
    requires Agree(decls, entries)
    requires d.name !in entries && forall p :: p in d.parents ==> p in entries
    requires NoConflictWith(TableOf(decls), MemberNames(d.members), Inherited(entries, d.parents))
    ensures Agree(decls + [d], entries[d.name := Entry(NodeOf(d), Inherited(entries, d.parents))])
  {
    var t, t' := TableOf(decls), TableOf(decls + [d]);
    assert t.Keys == entries.Keys;
    AppendDecl(decls, d);
    InheritedIsParentClosure(decls, entries, d.parents);
    GrownAncestors(t, d.name, NodeOf(d), t');
    GrownAcyclic(t, d.name, NodeOf(d), t');
    GrownConflictFree(t, d.name, NodeOf(d), t');
    GrownEntries(t, entries, d, t');
  }

  lemma AppendDecl(decls: seq<Decl>, d: Decl)
    requires DistinctNames(decls) && d.name !in TableOf(decls)
    ensures DistinctNames(decls + [d]) && TableOf(decls + [d]) == TableOf(decls)[d.name := NodeOf(d)]
  {
    var all := decls + [d];
    assert all[..|decls|] == decls && all[..|decls| + 1] == all;
    DeclareStep(all, |decls|);
  }

  lemma GrownEntries(t: Table, entries: Entries, d: Decl, t': Table)
    requires t == (map n | n in entries :: entries[n].node) && d.name !in t && t' == t[d.name := NodeOf(d)]
    requires forall n :: n in entries ==> entries[n].ancestors == AncestorsOf(t, n)
    requires forall n :: n in t ==> AncestorsOf(t', n) == AncestorsOf(t, n)
    requires AncestorsOf(t', d.name) == Inherited(entries, d.parents)
    ensures var entries' := entries[d.name := Entry(NodeOf(d), Inherited(entries, d.parents))];
            && t' == (map n | n in entries' :: entries'[n].node)
            && forall n :: n in entries' ==> entries'[n].ancestors == AncestorsOf(t', n)
  {
  }
}
