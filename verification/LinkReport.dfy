/**
 The linker's messages: what each of them says about the inheritance graph, and how many conflict
 messages the walk over an interface's family produces.
 */
module LinkReport {
  import opened InheritanceGraph
  import opened MemberCounting

  datatype LinkError =
    | CyclicInheritance(intf: Name)
    | UndefinedSymbol(symbol: Name)
    | DuplicatedSymbol(symbol: Name)
    | MemberConflict(intf: Name, firstOwner: Name, secondOwner: Name, member: Name)

  ghost predicate NoCycleReported(errors: seq<LinkError>) {
    forall e :: e in errors ==> !e.CyclicInheritance?
  }

  /** Messages are only ever appended, and those about duplicates only before the search starts. */
  ghost predicate Extends(errors: seq<LinkError>, errors': seq<LinkError>) {
    errors <= errors' && forall e :: e in errors' && e.DuplicatedSymbol? ==> e in errors
  }

  lemma ExtendsReflexive(errors: seq<LinkError>)
    ensures Extends(errors, errors)
  {
  }

  lemma ExtendsByOne(errors: seq<LinkError>, e: LinkError)
    requires !e.DuplicatedSymbol?
    ensures Extends(errors, errors + [e])
  {
  }

  lemma ExtendsTransitive(x: seq<LinkError>, y: seq<LinkError>, z: seq<LinkError>)
    requires Extends(x, y) && Extends(y, z)
    ensures Extends(x, z)
  {
  }

  /** The number of conflict messages about interface n. */
  ghost function Conflicts(errors: seq<LinkError>, n: Name): nat {
    if errors == [] then 0
    else
      var e := errors[|errors| - 1];
      Conflicts(errors[..|errors| - 1], n) + if e.MemberConflict? && e.intf == n then 1 else 0
  }

  lemma ConflictsOfAppend(errors: seq<LinkError>, e: LinkError, n: Name)
    ensures Conflicts(errors + [e], n) == Conflicts(errors, n) + if e.MemberConflict? && e.intf == n then 1 else 0
  {
    assert (errors + [e])[..|errors|] == errors;
  }

  lemma {:induction false} ConflictsOfConcat(xs: seq<LinkError>, ys: seq<LinkError>, n: Name)
    ensures Conflicts(xs + ys, n) == Conflicts(xs, n) + Conflicts(ys, n)
  {
    if ys == [] {
      assert xs + ys == xs;
    } else {
      var front, e := ys[..|ys| - 1], ys[|ys| - 1];
      ConflictsOfConcat(xs, front, n);
      ConflictsOfAppend(xs + front, e, n);
      assert xs + ys == xs + front + [e];
    }
  }

  lemma {:induction false} ConflictsAllAbout(errors: seq<LinkError>, about: Name, n: Name)
    requires forall e :: e in errors ==> e.MemberConflict? && e.intf == about
    ensures Conflicts(errors, n) == if n == about then |errors| else 0
  {
    if errors != [] {
      assert errors[|errors| - 1] in errors;
      ConflictsAllAbout(errors[..|errors| - 1], about, n);
    }
  }

  lemma {:induction false} ConflictReported(errors: seq<LinkError>, e: LinkError)
    requires e in errors && e.MemberConflict?
    ensures Conflicts(errors, e.intf) > 0
  {
    if errors[|errors| - 1] != e {
      assert e in errors[..|errors| - 1];
      ConflictReported(errors[..|errors| - 1], e);
    }
  }

  lemma {:induction false} ConflictBehindCount(errors: seq<LinkError>, n: Name) returns (e: LinkError)
    requires Conflicts(errors, n) > 0
    ensures e in errors && e.MemberConflict? && e.intf == n
  {
    e := errors[|errors| - 1];
    if !(e.MemberConflict? && e.intf == n) {
      e := ConflictBehindCount(errors[..|errors| - 1], n);
    }
  }

  /** The number of conflict messages that processing n must produce, given its gathered ancestors. */
  ghost function Repeated(t: Table, n: Name, ancestors: set<Name>): int
    requires n in t && ancestors <= t.Keys
  {
    |t[n].members| + TotalMembers(t, ancestors) - |t[n].members + UnionMembers(t, ancestors)|
  }

  /** Outside a cycle this is the number of members over the family minus the number of distinct names. */
  lemma RepeatedOverFamily(t: Table, n: Name, ancestors: set<Name>)
    requires n in t && ancestors <= t.Keys && n !in ancestors
    ensures Repeated(t, n, ancestors) == TotalMembers(t, {n} + ancestors) - |UnionMembers(t, {n} + ancestors)|
    ensures Repeated(t, n, ancestors) == 0 <==> DisjointMembers(t, {n} + ancestors)
  {
    var family := {n} + ancestors;
    TotalWithout(t, family, n);
    assert family - {n} == ancestors;
    assert UnionMembers(t, family) == t[n].members + UnionMembers(t, ancestors);
    NoRepetition(t, family);
  }

  /** What a message says about the graph. */
  ghost predicate Justified(t: Table, e: LinkError) {
    match e
    case CyclicInheritance(n) => Reaches(t, n, n)
    case UndefinedSymbol(p) => p !in t && exists n :: n in t && p in t[n].parents
    case DuplicatedSymbol(n) => n in t
    case MemberConflict(n, a, b, m) =>
      && n in t && a in t && b in t
      && (a == n || Reaches(t, n, a)) && Reaches(t, n, b)
      && m in t[a].members && m in t[b].members
      && (a == b ==> Reaches(t, n, n))
  }

  /** A message about a member of nameP whose name was taken. */
  ghost predicate ClashOf(e: LinkError, intf: Name, nameP: Name, members: set<Name>, taken: map<Name, Name>) {
    && e.MemberConflict? && e.intf == intf && e.secondOwner == nameP
    && e.member in taken && e.member in members && e.firstOwner == taken[e.member]
  }

  /** symMap holds the members of n and of the ancestors in done, each with an owner among them. */
  ghost predicate Walked(g: Table, n: Name, done: set<Name>, symMap: map<Name, Name>)
    requires n in g && done <= g.Keys
  {
    && (forall m :: m in symMap <==> m in g[n].members || m in UnionMembers(g, done))
    && (forall m :: m in symMap ==>
          (symMap[m] == n || symMap[m] in done) && symMap[m] in g && m in g[symMap[m]].members)
  }

  lemma WalkStart(g: Table, n: Name, symMap: map<Name, Name>)
    requires n in g && symMap == map m | m in g[n].members :: n
    ensures Walked(g, n, {}, symMap) && |symMap| == |g[n].members| && TotalMembers(g, {}) == 0
    ensures AllAbout(g, [], n)
  {
    assert symMap.Keys == g[n].members;
  }

  lemma WalkEnd(g: Table, n: Name, done: set<Name>, symMap: map<Name, Name>)
    requires n in g && done <= g.Keys && Walked(g, n, done, symMap)
    ensures |g[n].members| + TotalMembers(g, done) - |symMap| == Repeated(g, n, done)
  {
    assert symMap.Keys == g[n].members + UnionMembers(g, done);
  }

  lemma WalkStep(g: Table, n: Name, done: set<Name>, nameP: Name, taken: map<Name, Name>,
                 symMap: map<Name, Name>)
    requires n in g && done <= g.Keys && nameP in g
    requires Walked(g, n, done, taken)
    requires forall m :: m in symMap <==> m in taken || m in g[nameP].members
    requires forall m :: m in symMap ==> symMap[m] == if m in taken then taken[m] else nameP
    ensures Walked(g, n, done + {nameP}, symMap)
  {
    UnionWith(g, done, nameP);
  }

  lemma ClashesJustified(g: Table, n: Name, done: set<Name>, nameP: Name, taken: map<Name, Name>,
                         clashes: seq<LinkError>)
    requires n in g && done <= g.Keys && nameP in g && nameP !in done
    requires Reaches(g, n, nameP) && forall a :: a in done ==> Reaches(g, n, a)
    requires Walked(g, n, done, taken)
    requires forall e :: e in clashes ==> ClashOf(e, n, nameP, g[nameP].members, taken)
    ensures AllAbout(g, clashes, n)
  {
  }

  /** Justified conflict messages about n only. */
  ghost predicate AllAbout(g: Table, errors: seq<LinkError>, n: Name) {
    forall e :: e in errors ==> e.MemberConflict? && e.intf == n && Justified(g, e)
  }

  lemma ExtendsByConflicts(g: Table, errors: seq<LinkError>, added: seq<LinkError>, n: Name)
    requires AllAbout(g, added, n)
    ensures Extends(errors, errors + added)
  {
  }

  lemma AllAboutConcat(g: Table, xs: seq<LinkError>, ys: seq<LinkError>, n: Name)
    requires AllAbout(g, xs, n) && AllAbout(g, ys, n)
    ensures AllAbout(g, xs + ys, n)
  {
  }
}
