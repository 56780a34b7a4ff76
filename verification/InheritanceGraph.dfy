/**
 The inheritance relation between interfaces, as a plain directed graph: what both the linker and the
 IDL parser compute is stated in terms of it.
 */
module InheritanceGraph {

  type Name = string

  /** A member (attribute, method or constant) of an interface; only its name matters to the linker. */
  datatype Member = Member(name: Name, kind: char)

  /** One interface declaration, as found in a compiled IDL fragment. */
  datatype Decl = Decl(name: Name, parents: seq<Name>, members: seq<Member>)

  /** What the graph keeps of a declaration: parents in order, member names without repetition. */
  datatype Node = Node(parents: seq<Name>, members: set<Name>)

  type Table = map<Name, Node>

  function MemberNames(members: seq<Member>): set<Name> {
    set m | m in members :: m.name
  }

  function NodeOf(d: Decl): Node {
    Node(d.parents, MemberNames(d.members))
  }

  /** The symbol table of a list of declarations: the first declaration of a name wins. */
  function TableOf(decls: seq<Decl>): Table {
    if decls == [] then map[]
    else
      var t := TableOf(decls[..|decls| - 1]);
      var d := decls[|decls| - 1];
      if d.name in t then t else t[d.name := NodeOf(d)]
  }

  predicate DistinctNames(decls: seq<Decl>) {
    forall i, j :: 0 <= i < j < |decls| ==> decls[i].name != decls[j].name
  }

  // ---------- Reachability ----------

  /** b is a defined parent of a. */
  predicate Edge(t: Table, a: Name, b: Name) {
    a in t && b in t && b in t[a].parents
  }

  predicate IsPath(t: Table, p: seq<Name>) {
    forall i :: 0 <= i < |p| - 1 ==> Edge(t, p[i], p[i + 1])
  }

  predicate Connects(t: Table, p: seq<Name>, a: Name, b: Name) {
    2 <= |p| && p[0] == a && p[|p| - 1] == b && IsPath(t, p)
  }

  /** b can be reached from a by one or more parent steps. */
  ghost predicate Reaches(t: Table, a: Name, b: Name) {
    exists p :: Connects(t, p, a, b)
  }

  /** Every interface that a inherits from, directly or not. */
  ghost function AncestorsOf(t: Table, a: Name): set<Name> {
    set b | b in t && Reaches(t, a, b)
  }

  lemma EdgeReaches(t: Table, a: Name, b: Name)
    requires Edge(t, a, b)
    ensures Reaches(t, a, b)
  {
    assert Connects(t, [a, b], a, b);
  }

  lemma PathReaches(t: Table, p: seq<Name>, i: nat, j: nat)
    requires IsPath(t, p) && i < j < |p|
    ensures Reaches(t, p[i], p[j])
  {
    assert Connects(t, p[i..j + 1], p[i], p[j]);
  }

  lemma ReachesTransitive(t: Table, a: Name, b: Name, c: Name)
    requires Reaches(t, a, b) && Reaches(t, b, c)
    ensures Reaches(t, a, c)
  {
    var p :| Connects(t, p, a, b);
    var q :| Connects(t, q, b, c);
    var r := p + q[1..];
    forall i | 0 <= i < |r| - 1
      ensures Edge(t, r[i], r[i + 1])
    {
      if i < |p| - 1 {
        assert Edge(t, p[i], p[i + 1]);
      } else {
        assert Edge(t, q[i - (|p| - 1)], q[i - (|p| - 1) + 1]);
      }
    }
    assert Connects(t, r, a, c);
  }

  lemma ReachesFirstStep(t: Table, a: Name, b: Name) returns (c: Name)
    requires Reaches(t, a, b)
    ensures Edge(t, a, c) && (c == b || Reaches(t, c, b))
  {
    var p :| Connects(t, p, a, b);
    c := p[1];
    assert Edge(t, p[0], p[1]);
    if |p| > 2 {
      PathReaches(t, p, 1, |p| - 1);
    }
  }

  lemma ReachesWithinTable(t: Table, a: Name, b: Name)
    requires Reaches(t, a, b)
    ensures a in t && b in t
  {
    var p :| Connects(t, p, a, b);
    assert Edge(t, p[0], p[1]);
    assert Edge(t, p[|p| - 2], p[|p| - 2 + 1]);
  }

  /** The names in s never lead out of s. */
  ghost predicate Closed(t: Table, s: set<Name>) {
    forall a, b :: a in s && Edge(t, a, b) ==> b in s
  }

  lemma ClosedUnderReaches(t: Table, s: set<Name>, a: Name, b: Name)
    requires Closed(t, s) && a in s && Reaches(t, a, b)
    ensures b in s
  {
    var p :| Connects(t, p, a, b);
    var i := 0;
    while i < |p| - 1
      invariant 0 <= i < |p| && p[i] in s
    {
      assert Edge(t, p[i], p[i + 1]);
      i := i + 1;
    }
  }

  /** One step of the recursive characterisation that both closures implement. */
  ghost function ParentClosure(t: Table, parents: seq<Name>): set<Name> {
    set b | b in t && exists p :: p in parents && p in t && (b == p || b in AncestorsOf(t, p))
  }

  lemma AncestorsAreParentClosure(t: Table, a: Name)
    requires a in t
    ensures AncestorsOf(t, a) == ParentClosure(t, t[a].parents)
  {
    forall b | b in AncestorsOf(t, a)
      ensures b in ParentClosure(t, t[a].parents)
    {
      var c := ReachesFirstStep(t, a, b);
    }
    forall b | b in ParentClosure(t, t[a].parents)
      ensures b in AncestorsOf(t, a)
    {
      var p :| p in t[a].parents && p in t && (b == p || b in AncestorsOf(t, p));
      EdgeReaches(t, a, p);
      if b != p {
        ReachesTransitive(t, a, p, b);
      }
    }
  }

  // ---------- The verdict of a link ----------

  ghost predicate AllParentsDefined(t: Table) {
    forall a, p :: a in t && p in t[a].parents ==> p in t
  }

  ghost predicate Acyclic(t: Table) {
    forall a :: a in t ==> !Reaches(t, a, a)
  }

  /** An interface together with everything it inherits from. */
  ghost function Family(t: Table, a: Name): set<Name>
    requires a in t
  {
    {a} + AncestorsOf(t, a)
  }

  /** No two distinct interfaces of s declare a member of the same name. */
  predicate DisjointMembers(t: Table, s: set<Name>)
    requires s <= t.Keys
  {
    forall a, b :: a in s && b in s && a != b ==> t[a].members !! t[b].members
  }

  ghost predicate ConflictFree(t: Table) {
    forall a :: a in t ==> DisjointMembers(t, Family(t, a))
  }

  /** What a list of declarations must satisfy to be linkable. */
  ghost predicate Linkable(decls: seq<Decl>) {
    && DistinctNames(decls)
    && AllParentsDefined(TableOf(decls))
    && Acyclic(TableOf(decls))
    && ConflictFree(TableOf(decls))
  }

  // ---------- The table of a list of declarations ----------

  lemma {:induction false} TableKeys(decls: seq<Decl>)
    ensures TableOf(decls).Keys == set d | d in decls :: d.name
  {
    if decls != [] {
      var front, d := decls[..|decls| - 1], decls[|decls| - 1];
      TableKeys(front);
      assert decls == front + [d];
    }
  }

  /** What one more declaration does to the table and to the distinctness of the names. */
  lemma DeclareStep(decls: seq<Decl>, i: nat)
    requires i < |decls|
    ensures TableOf(decls[..i + 1]) ==
            var t := TableOf(decls[..i]); if decls[i].name in t then t else t[decls[i].name := NodeOf(decls[i])]
    ensures DistinctNames(decls[..i + 1]) <==> DistinctNames(decls[..i]) && decls[i].name !in TableOf(decls[..i])
  {
    var front, next := decls[..i], decls[..i + 1];
    assert next == front + [decls[i]] && next[..i] == front;
    TableKeys(front);
    if decls[i].name in TableOf(front) {
      var j :| 0 <= j < i && front[j].name == decls[i].name;
      assert next[j].name == next[i].name;
    } else if DistinctNames(front) {
      forall j, k | 0 <= j < k < |next|
        ensures next[j].name != next[k].name
      {
        assert front[j] in front;
        assert k < i ==> front[j].name != front[k].name;
      }
    }
    if DistinctNames(next) {
      forall j, k | 0 <= j < k < |front|
        ensures front[j].name != front[k].name
      {
        assert next[j].name != next[k].name;
      }
    }
  }

  lemma {:induction false} TableEntry(decls: seq<Decl>, i: nat)
    requires DistinctNames(decls) && i < |decls|
    ensures decls[i].name in TableOf(decls) && TableOf(decls)[decls[i].name] == NodeOf(decls[i])
  {
    var front, d := decls[..|decls| - 1], decls[|decls| - 1];
    TableKeys(front);
    if i < |decls| - 1 {
      TableEntry(front, i);
    } else {
      assert d.name !in TableOf(front);
    }
  }

  /** With distinct names the table does not depend on the order of the declarations. */
  lemma TableIsOrderFree(xs: seq<Decl>, ys: seq<Decl>)
    requires multiset(xs) == multiset(ys) && DistinctNames(xs) && DistinctNames(ys)
    ensures TableOf(xs) == TableOf(ys)
  {
    TableKeys(xs);
    TableKeys(ys);
    assert forall d :: d in xs <==> d in multiset(xs);
    assert forall d :: d in ys <==> d in multiset(ys);
    forall n | n in TableOf(xs)
      ensures n in TableOf(ys) && TableOf(xs)[n] == TableOf(ys)[n]
    {
      var i :| 0 <= i < |xs| && xs[i].name == n;
      assert xs[i] in ys;
      var j :| 0 <= j < |ys| && ys[j] == xs[i];
      TableEntry(xs, i);
      TableEntry(ys, j);
    }
  }

  lemma DistinctIsOrderFree(xs: seq<Decl>, ys: seq<Decl>)
    requires multiset(xs) == multiset(ys) && DistinctNames(xs)
    ensures DistinctNames(ys)
  {
    forall i, j | 0 <= i < j < |ys|
      ensures ys[i].name != ys[j].name
    {
      assert ys[i] in multiset(xs) && ys[j] in multiset(xs);
      var k :| 0 <= k < |xs| && xs[k] == ys[i];
      var l :| 0 <= l < |xs| && xs[l] == ys[j];
      OccursOnce(xs, k);
      OccursTwice(ys, i, j);
    }
  }

  lemma OccursTwice(ys: seq<Decl>, i: nat, j: nat)
    requires i < j < |ys|
    ensures ys[i] == ys[j] ==> multiset(ys)[ys[i]] >= 2
  {
    assert ys == ys[..i] + [ys[i]] + ys[i + 1..j] + [ys[j]] + ys[j + 1..];
  }

  lemma OccursOnce(xs: seq<Decl>, k: nat)
    requires DistinctNames(xs) && k < |xs|
    ensures multiset(xs)[xs[k]] == 1
  {
    assert xs == xs[..k] + [xs[k]] + xs[k + 1..];
    assert xs[k] !in xs[..k] && xs[k] !in xs[k + 1..];
  }

  /** The verdict of a link does not depend on the order of the declarations. */
  lemma VerdictIsOrderFree(xs: seq<Decl>, ys: seq<Decl>)
    requires multiset(xs) == multiset(ys)
    ensures Linkable(xs) <==> Linkable(ys)
  {
    if DistinctNames(xs) || DistinctNames(ys) {
      if DistinctNames(xs) {
        DistinctIsOrderFree(xs, ys);
      } else {
        DistinctIsOrderFree(ys, xs);
      }
      TableIsOrderFree(xs, ys);
    }
  }
}
