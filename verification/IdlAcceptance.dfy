/**
 Which files are accepted, without a word about how the parser goes about it: the interfaces that stand in a
 file and its includes, one after the other, must be linkable, each after its parents, and no name may be
 entered twice.
 */
module IdlAcceptance {
  import opened InheritanceGraph
  import opened EagerClosure
  import opened Options
  import opened Sequences
  import opened IdlParser
  import opened IdlFiles

  /** An interface as it stands in a file, with the prefix of the modules around it. */
  datatype Standing = Standing(prefix: Name, symbol: Name, parents: seq<Name>, members: seq<Member>)
  {
    function FullName(): Name {
      prefix + symbol
    }

    /** The names that it enters: its own, and those of its members under it. */
    function Names(): set<Name> {
      {FullName()} + (set m | m in members :: FullName() + "::" + m.name)
    }
  }

  function InElement(elt: ModuleElt, prefix: Name): seq<Standing>
    decreases elt
  {
    match elt
    case Interface(symbol, parents, members) => [Standing(prefix, symbol, parents, members)]
    case Module(symbol, elts) => InElements(elts, prefix + symbol + "::")
  }

  function InElements(elts: seq<ModuleElt>, prefix: Name): seq<Standing>
    decreases elts
  {
    if elts == [] then []
    else InElements(elts[..|elts| - 1], prefix) + InElement(elts[|elts| - 1], prefix)
  }

  datatype Reading = Reading(standing: seq<Standing>, files: set<Name>)

  /** The interfaces of a document, those of an include in the place of the first include of that file. */
  function InDocument(fs: FileSystem, files: set<Name>, doc: seq<DocumentElt>): (r: Reading)
    ensures files <= r.files
    decreases fs.Keys - files, |doc|
  {
    if doc == [] then Reading([], files)
    else
      var r := InDocument(fs, files, doc[..|doc| - 1]);
      match doc[|doc| - 1]
      case Declare(elt) => Reading(r.standing + InElement(elt, ""), r.files)
      case Include(path) =>
        if path in r.files || path !in fs then r
        else
          var included := InDocument(fs, r.files + {path}, fs[path]);
          Reading(r.standing + included.standing, included.files)
  }

  function InFile(fs: FileSystem, path: Name): seq<Standing>
    requires path in fs
  {
    InDocument(fs, {path}, fs[path]).standing
  }

  function NamesIn(xs: seq<Standing>): set<Name> {
    if xs == [] then {} else NamesIn(xs[..|xs| - 1]) + xs[|xs| - 1].Names()
  }

  /** A parent is looked up in the module around the interface first, and then globally. */
  function LookUp(names: set<Name>, prefix: Name, symbol: Name): Name {
    if prefix + symbol in names then prefix + symbol else symbol
  }

  /** The declarations with full names, each parent looked up among the names that stand before it. */
  function DeclsIn(xs: seq<Standing>): (decls: seq<Decl>)
    ensures |decls| == |xs|
  {
    if xs == [] then []
    else
      var front, x := xs[..|xs| - 1], xs[|xs| - 1];
      DeclsIn(front) + [DeclOf(NamesIn(front), x)]
  }

  function DeclOf(names: set<Name>, x: Standing): Decl {
    Decl(x.FullName(), seq(|x.parents|, i requires 0 <= i < |x.parents| => LookUp(names, x.prefix, x.parents[i])), x.members)
  }

  /** Every parent is one of the interfaces before. */
  predicate ParentsFirst(decls: seq<Decl>) {
    forall i, p :: 0 <= i < |decls| && p in decls[i].parents ==> exists j :: 0 <= j < i && decls[j].name == p
  }

  /** No name is entered twice. */
  predicate NamesOnce(xs: seq<Standing>) {
    && (forall i :: 0 <= i < |xs| ==> DistinctMembers(xs[i].members))
    && forall i, j :: 0 <= i < j < |xs| ==> xs[i].Names() !! xs[j].Names()
  }

  ghost predicate Acceptable(xs: seq<Standing>) {
    Linkable(DeclsIn(xs)) && ParentsFirst(DeclsIn(xs)) && NamesOnce(xs)
  }

  // ---------- One more interface ----------

  lemma DeclsAppend(xs: seq<Standing>, x: Standing)
    ensures DeclsIn(xs + [x]) == DeclsIn(xs) + [DeclOf(NamesIn(xs), x)]
    ensures NamesIn(xs + [x]) == NamesIn(xs) + x.Names()
  {
    assert (xs + [x])[..|xs|] == xs;
  }

  lemma {:induction false} NamesInMember(xs: seq<Standing>, n: Name)
    ensures n in NamesIn(xs) <==> exists i :: 0 <= i < |xs| && n in xs[i].Names()
  {
    if xs != [] {
      NamesInMember(xs[..|xs| - 1], n);
    }
  }

  lemma NamesDisjoint(xs: seq<Standing>, names: set<Name>)
    ensures NamesIn(xs) !! names <==> forall i :: 0 <= i < |xs| ==> xs[i].Names() !! names
  {
    forall n
      ensures n in NamesIn(xs) <==> exists i :: 0 <= i < |xs| && n in xs[i].Names()
    {
      NamesInMember(xs, n);
    }
  }

  lemma NamesOnceAppend(xs: seq<Standing>, x: Standing)
    ensures NamesOnce(xs + [x]) <==> NamesOnce(xs) && DistinctMembers(x.members) && NamesIn(xs) !! x.Names()
  {
    hide DistinctMembers, NamesIn;
    var more := xs + [x];
    NamesDisjoint(xs, x.Names());
    assert more[|xs|] == x && forall i :: 0 <= i < |xs| ==> more[i] == xs[i];
    if NamesOnce(more) {
      forall i, j | 0 <= i < j < |xs|
        ensures xs[i].Names() !! xs[j].Names()
      {
        assert more[i].Names() !! more[j].Names();
      }
      forall i | 0 <= i < |xs|
        ensures DistinctMembers(xs[i].members) && xs[i].Names() !! x.Names()
      {
        assert DistinctMembers(more[i].members) && more[i].Names() !! more[|xs|].Names();
      }
    }
  }

  lemma ParentsFirstAppend(decls: seq<Decl>, d: Decl)
    ensures ParentsFirst(decls + [d]) <==> ParentsFirst(decls) && forall p :: p in d.parents ==> p in TableOf(decls)
  {
    var more := decls + [d];
    TableKeys(decls);
    assert more[|decls|] == d && forall i :: 0 <= i < |decls| ==> more[i] == decls[i];
    if ParentsFirst(more) {
      forall i, p | 0 <= i < |decls| && p in decls[i].parents
        ensures exists j :: 0 <= j < i && decls[j].name == p
      {
        var j :| 0 <= j < i && more[j].name == p;
        assert decls[j].name == p;
      }
      forall p | p in d.parents
        ensures p in TableOf(decls)
      {
        assert p in more[|decls|].parents;
        var j :| 0 <= j < |decls| && more[j].name == p;
        assert decls[j] in decls;
      }
    }
    if ParentsFirst(decls) && forall p :: p in d.parents ==> p in TableOf(decls) {
      forall i, p | 0 <= i < |more| && p in more[i].parents
        ensures exists j :: 0 <= j < i && more[j].name == p
      {
        if i < |decls| {
          var j :| 0 <= j < i && decls[j].name == p;
          assert more[j].name == p;
        } else {
          var e :| e in decls && e.name == p;
          var j :| 0 <= j < |decls| && decls[j] == e;
          assert more[j].name == p;
        }
      }
    }
  }

  // What linking one more declaration takes.

  lemma FirstMeansDefined(decls: seq<Decl>)
    requires DistinctNames(decls) && ParentsFirst(decls)
    ensures AllParentsDefined(TableOf(decls))
  {
    var t := TableOf(decls);
    TableKeys(decls);
    forall a, p | a in t && p in t[a].parents
      ensures p in t
    {
      var d :| d in decls && d.name == a;
      var i :| 0 <= i < |decls| && decls[i] == d;
      TableEntry(decls, i);
      var j :| 0 <= j < i && decls[j].name == p;
      assert decls[j] in decls;
    }
  }

  lemma GrownBack(t: Table, n: Name, node: Node, t': Table)
    requires Grows(t, n, node, t') && Acyclic(t') && ConflictFree(t')
    ensures Acyclic(t) && ConflictFree(t) && NoConflictWith(t, node.members, ParentClosure(t, node.parents))
  {
    GrownAncestors(t, n, node, t');
    forall a | a in t
      ensures !Reaches(t, a, a)
    {
      GrownReaches(t, n, node, t', a, a);
    }
    hide Reaches, AncestorsOf, ParentClosure, DisjointMembers, NoConflictWith;
    forall a | a in t
      ensures DisjointMembers(t, Family(t, a))
    {
      assert DisjointMembers(t', Family(t', a)) && Family(t', a) == Family(t, a);
      FamilyWithin(t, a);
      SameDisjoint(t, t', Family(t, a));
    }
    assert DisjointMembers(t', Family(t', n));
    NewestHasNoConflict(t, n, node, t');
  }

  lemma FamilyWithin(t: Table, a: Name)
    requires a in t
    ensures Family(t, a) <= t.Keys
  {
  }

  lemma SameDisjoint(t: Table, t': Table, s: set<Name>)
    requires s <= t.Keys && s <= t'.Keys && (forall a :: a in s ==> t[a] == t'[a]) && DisjointMembers(t', s)
    ensures DisjointMembers(t, s)
  {
  }

  lemma NewestHasNoConflict(t: Table, n: Name, node: Node, t': Table)
    requires Grows(t, n, node, t') && AncestorsOf(t', n) == ParentClosure(t, node.parents)
    requires DisjointMembers(t', Family(t', n))
    ensures NoConflictWith(t, node.members, ParentClosure(t, node.parents))
  {
    var closure := ParentClosure(t, node.parents);
    assert forall a :: a in closure ==> a in t && t[a] == t'[a] && a in Family(t', n);
    assert n in Family(t', n);
  }

  lemma LinkableAppend(decls: seq<Decl>, d: Decl)
    requires DistinctNames(decls) && ParentsFirst(decls)
    requires d.name !in TableOf(decls) && forall p :: p in d.parents ==> p in TableOf(decls)
    ensures Linkable(decls + [d]) <==>
            Linkable(decls) && NoConflictWith(TableOf(decls), MemberNames(d.members), ParentClosure(TableOf(decls), d.parents))
  {
    var t, t' := TableOf(decls), TableOf(decls + [d]);
    AppendDecl(decls, d);
    FirstMeansDefined(decls);
    assert Grows(t, d.name, NodeOf(d), t');
    if Linkable(decls + [d]) {
      GrownBack(t, d.name, NodeOf(d), t');
    }
    if Linkable(decls) && NoConflictWith(t, MemberNames(d.members), ParentClosure(t, d.parents)) {
      GrownAcyclic(t, d.name, NodeOf(d), t');
      GrownConflictFree(t, d.name, NodeOf(d), t');
    }
  }

  lemma LinkableFront(decls: seq<Decl>, d: Decl)
    requires Linkable(decls + [d]) && ParentsFirst(decls + [d])
    ensures Linkable(decls) && d.name !in TableOf(decls) && DistinctNames(decls)
  {
    var all := decls + [d];
    assert all[..|decls|] == decls && all[..|decls| + 1] == all;
    DeclareStep(all, |decls|);
    ParentsFirstAppend(decls, d);
    LinkableAppend(decls, d);
  }

  lemma AcceptableFront(xs: seq<Standing>, x: Standing)
    requires Acceptable(xs + [x])
    ensures Acceptable(xs)
  {
    hide Linkable;
    DeclsAppend(xs, x);
    NamesOnceAppend(xs, x);
    ParentsFirstAppend(DeclsIn(xs), DeclOf(NamesIn(xs), x));
    LinkableFront(DeclsIn(xs), DeclOf(NamesIn(xs), x));
  }

  // ---------- The parser takes exactly these ----------

  function ContextOf(prefix: Name): Context {
    if prefix == "" then RootCtx else ModuleCtx(prefix)
  }

  /** The turns of the parser, one interface after the other. */
  ghost function Turns(k: Known, xs: seq<Standing>): Option<Known> {
    if xs == [] then Some(k)
    else
      var x := xs[|xs| - 1];
      match Turns(k, xs[..|xs| - 1])
      case None => None
      case Some(k') =>
        var ctx := ContextOf(x.prefix);
        if Welcome(k', ctx, x.symbol, x.parents, x.members) then Some(Enter(k', ctx, x.symbol, x.parents, x.members)) else None
  }

  /** The parser knows exactly these interfaces, under these names. */
  ghost predicate Knows(k: Known, xs: seq<Standing>) {
    k.names == NamesIn(xs) && Agree(DeclsIn(xs), k.entries)
  }

  lemma SameLookUp(names: set<Name>, x: Standing)
    ensures ContextOf(x.prefix).Str() == x.prefix
    ensures forall s :: ResolvedName(names, ContextOf(x.prefix), s) == LookUp(names, x.prefix, s)
    ensures Resolved(names, ContextOf(x.prefix), x.parents) == DeclOf(names, x).parents
  {
    if x.prefix == "" {
      assert forall s: Name :: x.prefix + s == s;
    }
  }

  lemma SameNames(names: set<Name>, x: Standing)
    ensures {x.FullName()} + QualifiedNames(x.FullName() + NAMESPACE_SEP, x.members) == x.Names()
    ensures NewMembers(names, x.FullName() + NAMESPACE_SEP, x.members) && x.FullName() !in names <==>
            DistinctMembers(x.members) && names !! x.Names()
  {
    assert forall m :: m in x.members ==> x.FullName() + NAMESPACE_SEP + m.name == x.FullName() + "::" + m.name;
  }

  lemma KnownEntries(k: Known, xs: seq<Standing>)
    requires Knows(k, xs)
    ensures k.entries.Keys == TableOf(DeclsIn(xs)).Keys && Nodes(k.entries) == TableOf(DeclsIn(xs))
    ensures Linkable(DeclsIn(xs)) && DistinctNames(DeclsIn(xs))
    ensures forall parents :: Inherited(k.entries, parents) == ParentClosure(TableOf(DeclsIn(xs)), parents)
  {
    forall parents
      ensures Inherited(k.entries, parents) == ParentClosure(TableOf(DeclsIn(xs)), parents)
    {
      InheritedIsParentClosure(DeclsIn(xs), k.entries, parents);
    }
  }

  lemma {:induction false} DeclNamesAreNames(xs: seq<Standing>)
    ensures forall d :: d in DeclsIn(xs) ==> d.name in NamesIn(xs)
  {
    if xs != [] {
      DeclNamesAreNames(xs[..|xs| - 1]);
    }
  }

  /** An interface is welcome exactly when it can stand at the end of the list. */
  lemma OneTurn(k: Known, xs: seq<Standing>, x: Standing)
    requires Knows(k, xs) && Acceptable(xs)
    ensures Welcome(k, ContextOf(x.prefix), x.symbol, x.parents, x.members) <==> Acceptable(xs + [x])
    ensures Acceptable(xs + [x]) ==> Knows(Enter(k, ContextOf(x.prefix), x.symbol, x.parents, x.members), xs + [x])
  {
    WelcomeAtTheEnd(k, xs, x);
    if Acceptable(xs + [x]) {
      EnteredIsKnown(k, xs, x);
    }
  }

  lemma HeaderAtTheEnd(k: Known, xs: seq<Standing>, x: Standing)
    requires Knows(k, xs)
    ensures WelcomeHeader(k, ContextOf(x.prefix), x.symbol, x.parents) <==>
            x.FullName() !in k.names && forall p :: p in DeclOf(NamesIn(xs), x).parents ==> p in TableOf(DeclsIn(xs))
  {
    KnownEntries(k, xs);
    SameLookUp(k.names, x);
    SameParents(k.names, k.entries.Keys, x);
    hide Agree, NamesIn, DeclsIn, TableOf, LookUp, ResolvedName, Inherited, ParentClosure;
  }

  lemma WelcomeAtTheEnd(k: Known, xs: seq<Standing>, x: Standing)
    requires Knows(k, xs) && Acceptable(xs)
    ensures Welcome(k, ContextOf(x.prefix), x.symbol, x.parents, x.members) <==> Acceptable(xs + [x])
  {
    var decls, d := DeclsIn(xs), DeclOf(NamesIn(xs), x);
    HeaderAtTheEnd(k, xs, x);
    KnownEntries(k, xs);
    SameLookUp(k.names, x);
    SameNames(k.names, x);
    DeclsAppend(xs, x);
    NamesOnceAppend(xs, x);
    ParentsFirstAppend(decls, d);
    DeclNamesAreNames(xs);
    TableKeys(decls);
    hide Linkable, NoConflictWith, Inherited, ParentClosure, Agree, NewMembers, QualifiedNames, NamesOnce, ParentsFirst,
      DistinctNames, DistinctMembers, WelcomeHeader, ResolvedName, LookUp, NamesIn, DeclsIn, TableOf;
    if d.name !in TableOf(decls) && forall p :: p in d.parents ==> p in TableOf(decls) {
      LinkableAppend(decls, d);
    }
  }

  lemma EnteredIsKnown(k: Known, xs: seq<Standing>, x: Standing)
    requires Knows(k, xs) && Acceptable(xs + [x])
    requires Welcome(k, ContextOf(x.prefix), x.symbol, x.parents, x.members)
    ensures Knows(Enter(k, ContextOf(x.prefix), x.symbol, x.parents, x.members), xs + [x])
  {
    var decls, d := DeclsIn(xs), DeclOf(NamesIn(xs), x);
    HeaderAtTheEnd(k, xs, x);
    KnownEntries(k, xs);
    SameLookUp(k.names, x);
    SameNames(k.names, x);
    DeclsAppend(xs, x);
    DeclNamesAreNames(xs);
    TableKeys(decls);
    hide Linkable, NoConflictWith, Inherited, ParentClosure, Agree, NewMembers, QualifiedNames, NamesOnce, ParentsFirst,
      DistinctNames, DistinctMembers, WelcomeHeader, ResolvedName, LookUp, NamesIn, DeclsIn, TableOf;
    AcceptOne(decls, k.entries, d);
  }

  lemma SameParents(names: set<Name>, known: set<Name>, x: Standing)
    ensures (forall p :: p in x.parents ==> LookUp(names, x.prefix, p) in known) <==>
            (forall p :: p in DeclOf(names, x).parents ==> p in known)
  {
    var d := DeclOf(names, x);
    if forall p :: p in d.parents ==> p in known {
      forall p | p in x.parents
        ensures LookUp(names, x.prefix, p) in known
      {
        var i :| 0 <= i < |x.parents| && x.parents[i] == p;
        assert d.parents[i] in d.parents;
      }
    }
    if forall p :: p in x.parents ==> LookUp(names, x.prefix, p) in known {
      forall p | p in d.parents
        ensures p in known
      {
        var i :| 0 <= i < |d.parents| && d.parents[i] == p;
        assert x.parents[i] in x.parents;
      }
    }
  }

  lemma {:induction false} TurnsAreAcceptance(xs: seq<Standing>)
    ensures Turns(NOTHING_SEEN.known, xs).Some? <==> Acceptable(xs)
    ensures Acceptable(xs) ==> Knows(Turns(NOTHING_SEEN.known, xs).value, xs)
  {
    hide Acceptable, Knows, Welcome, Enter;
    if xs == [] {
      NothingIsAcceptable();
    } else {
      var front, x := xs[..|xs| - 1], xs[|xs| - 1];
      assert xs == front + [x];
      TurnsAreAcceptance(front);
      if Acceptable(front) {
        OneTurn(Turns(NOTHING_SEEN.known, front).value, front, x);
      } else if Acceptable(xs) {
        AcceptableFront(front, x);
      }
    }
  }

  lemma NothingIsAcceptable()
    ensures Acceptable([]) && Knows(NOTHING_SEEN.known, [])
  {
    NothingIsSound();
    var elts :| Agree(elts, map[]);
    var t := TableOf(elts);
    assert t == map[];
    assert TableOf([]) == t;
    assert Linkable([]) && Agree([], map[]);
  }

  // ---------- From the document to the list ----------

  lemma {:induction false} TurnsAppend(k: Known, xs: seq<Standing>, ys: seq<Standing>)
    ensures Turns(k, xs + ys) == match Turns(k, xs) case None => None case Some(k') => Turns(k', ys)
  {
    hide Welcome, Enter;
    if ys == [] {
      EmptyRight(xs);
    } else {
      assert (xs + ys)[..|xs + ys| - 1] == xs + ys[..|ys| - 1];
      TurnsAppend(k, xs, ys[..|ys| - 1]);
    }
  }

  lemma {:induction false} ElementIsTurns(k: Known, prefix: Name, elt: ModuleElt)
    ensures AfterElt(k, ContextOf(prefix), elt) == Turns(k, InElement(elt, prefix))
    decreases elt
  {
    hide Welcome, Enter;
    assert ContextOf(prefix).Str() == prefix;
    match elt
    case Interface(symbol, parents, members) =>
      var x := Standing(prefix, symbol, parents, members);
      assert [x][..0] == [];
      assert Turns(k, [x][..0]) == Some(k);
    case Module(symbol, elts) =>
      var inner := prefix + symbol + "::";
      assert |inner| >= 2;
      ElementsAreTurns(k, inner, elts);
  }

  lemma {:induction false} ElementsAreTurns(k: Known, prefix: Name, elts: seq<ModuleElt>)
    ensures AfterElts(k, ContextOf(prefix), elts) == Turns(k, InElements(elts, prefix))
    decreases elts
  {
    hide AfterElt, Turns;
    if elts == [] {
      NoTurns(k);
    } else {
      var front, last := elts[..|elts| - 1], elts[|elts| - 1];
      ElementsAreTurns(k, prefix, front);
      TurnsAppend(k, InElements(front, prefix), InElement(last, prefix));
      if AfterElts(k, ContextOf(prefix), front).Some? {
        ElementIsTurns(AfterElts(k, ContextOf(prefix), front).value, prefix, last);
      }
    }
  }

  lemma NoTurns(k: Known)
    ensures Turns(k, []) == Some(k)
  {
  }

  /** Every include in one of the files can be opened, and is one of the files. */
  predicate AllOpen(fs: FileSystem, files: set<Name>) {
    forall f :: f in files ==> f in fs && forall p :: p in IncludesOf(fs[f]) ==> p in files
  }

  lemma {:induction false} DocumentIsTurns(fs: FileSystem, start: Stage, doc: seq<DocumentElt>, files: set<Name>)
    requires AllOpen(fs, files) && forall p :: p in IncludesOf(doc) ==> p in files
    ensures var r := InDocument(fs, start.files, doc);
            AfterDocument(fs, start, doc) == Listing(Turns(start.known, r.standing), r.files)
    decreases fs.Keys - start.files, |doc|
  {
    hide AfterElt, Turns, AfterFile;
    var k := start.known;
    if doc == [] {
      NoTurns(k);
    } else {
      var front := doc[..|doc| - 1];
      var r := InDocument(fs, start.files, front);
      DocumentIsTurns(fs, start, front, files);
      match doc[|doc| - 1] {
        case Declare(elt) =>
          TurnsAppend(k, r.standing, InElement(elt, ""));
          if Turns(k, r.standing).Some? {
            ElementIsTurns(Turns(k, r.standing).value, "", elt);
          }
        case Include(path) =>
          assert path in IncludesOf(doc);
          if path !in r.files {
            var included := InDocument(fs, r.files + {path}, fs[path]);
            TurnsAppend(k, r.standing, included.standing);
            if Turns(k, r.standing).Some? {
              var now := Stage(Turns(k, r.standing).value, r.files);
              FileIsDocument(fs, now, path);
              DocumentIsTurns(fs, Stage(now.known, r.files + {path}), fs[path], files);
            }
          }
      }
    }
  }

  // Includes.

  /** Every include in the file, and in the files that it includes, can be opened. */
  ghost predicate Openable(fs: FileSystem, path: Name) {
    forall f, p :: f in FilesFrom(fs, path) && f in fs && p in IncludesOf(fs[f]) ==> p in fs
  }

  lemma {:induction false} DocumentOpens(fs: FileSystem, start: Stage, doc: seq<DocumentElt>)
    requires AfterDocument(fs, start, doc).Some?
    ensures var end := AfterDocument(fs, start, doc).value;
            && (forall p :: p in IncludesOf(doc) ==> p in end.files)
            && forall f :: f in end.files && f !in start.files ==>
                f in fs && forall p :: p in IncludesOf(fs[f]) ==> p in end.files
    decreases fs.Keys - start.files, |doc|
  {
    hide AfterElt, AfterFile;
    if doc != [] {
      var front := doc[..|doc| - 1];
      DocumentOpens(fs, start, front);
      var now := AfterDocument(fs, start, front).value;
      if doc[|doc| - 1].Include? && doc[|doc| - 1].path !in now.files {
        var path := doc[|doc| - 1].path;
        FileIsDocument(fs, now, path);
        DocumentOpens(fs, Stage(now.known, now.files + {path}), fs[path]);
      }
    }
  }

  lemma CompiledIsOpenable(fs: FileSystem, path: Name)
    requires Compiles(fs, path)
    ensures Openable(fs, path)
  {
    var start := Stage(NOTHING_SEEN.known, NOTHING_SEEN.files + {path});
    FileIsDocument(fs, NOTHING_SEEN, path);
    DocumentOpens(fs, start, fs[path]);
    DocumentLists(fs, start, fs[path]);
    hide AfterDocument, AfterFile;
    var g, files := IncludeGraph(fs), AfterDocument(fs, start, fs[path]).value.files;
    assert Closed(g, files);
    forall f | f in FilesFrom(fs, path)
      ensures f in files
    {
      if f != path {
        ClosedUnderReaches(g, files, path, f);
      }
    }
  }

  lemma DocumentLists(fs: FileSystem, start: Stage, doc: seq<DocumentElt>)
    requires AfterDocument(fs, start, doc).Some?
    ensures start.files <= AfterDocument(fs, start, doc).value.files
  {
  }

  lemma OpenableFiles(fs: FileSystem, path: Name)
    requires path in fs && Openable(fs, path)
    ensures AllOpen(fs, FilesFrom(fs, path))
  {
    var g := IncludeGraph(fs);
    forall f, p | f in FilesFrom(fs, path) && p in IncludesOf(fs[f])
      ensures p in FilesFrom(fs, path)
    {
      assert Edge(g, f, p);
      EdgeReaches(g, f, p);
      if f != path {
        ReachesTransitive(g, path, f, p);
      }
    }
  }

  /**
     The files that compile: every include can be opened, and the interfaces, in the order in which they stand
     and with parents looked up among the names before them, are linkable, each after its parents, with no name
     entered twice. What the compilation then knows are exactly these declarations.
   */
  lemma CompilesExactly(fs: FileSystem, path: Name)
    requires path in fs
    ensures Compiles(fs, path) <==> Openable(fs, path) && Acceptable(InFile(fs, path))
    ensures Compiles(fs, path) ==> Agree(DeclsIn(InFile(fs, path)), EntriesOf(fs, path))
  {
    hide Acceptable, Turns, AfterFile;
    if Compiles(fs, path) {
      CompiledIsOpenable(fs, path);
    }
    if Openable(fs, path) {
      OpenableFiles(fs, path);
      FileIsDocument(fs, NOTHING_SEEN, path);
      assert NOTHING_SEEN.files + {path} == {path};
      DocumentIsTurns(fs, Stage(NOTHING_SEEN.known, {path}), fs[path], FilesFrom(fs, path));
      TurnsAreAcceptance(InFile(fs, path));
    }
  }

  ghost predicate Accepted(fs: FileSystem, path: Name) {
    path in fs && Openable(fs, path) && Acceptable(InFile(fs, path))
  }

  lemma AllCompileExactly(fs: FileSystem, files: seq<Name>)
    ensures AllCompile(fs, files) <==> forall f :: f in files ==> Accepted(fs, f)
  {
    hide Openable, Acceptable;
    forall f | f in files
      ensures Compiles(fs, f) <==> Accepted(fs, f)
    {
      if f in fs {
        CompilesExactly(fs, f);
      }
    }
  }

  // ---------- Names ----------

  lemma LaterColon(a: Name, m: Name, b: Name, n: Name)
    requires a + "::" + m == b + "::" + n && |a| < |b|
    ensures ':' in m
  {
    assert (b + "::" + n)[|b| + 1] == ':';
    assert (a + "::" + m)[|b| + 1] == m[|b| - |a| - 1];
  }

  /** Without a colon in the name of a member, what it is qualified by can be read off the qualified name. */
  lemma QualifiedUniquely(a: Name, m: Name, b: Name, n: Name)
    requires ':' !in m && ':' !in n && a + "::" + m == b + "::" + n
    ensures a == b && m == n
  {
    var q := a + "::" + m;
    if |a| < |b| {
      LaterColon(a, m, b, n);
    } else if |b| < |a| {
      LaterColon(b, n, a, m);
    } else {
      assert a == q[..|a|] == b && m == q[|a| + 2..] == n;
    }
  }

  predicate Plain(x: Standing) {
    forall m :: m in x.members ==> ':' !in m.name
  }

  /** A member of x is called as the interface y. */
  predicate NamedAs(x: Standing, y: Standing) {
    exists m :: m in x.members && x.FullName() + "::" + m.name == y.FullName()
  }

  lemma SharedName(x: Standing, y: Standing)
    requires Plain(x) && Plain(y)
    ensures x.Names() !! y.Names() <==> x.FullName() != y.FullName() && !NamedAs(x, y) && !NamedAs(y, x)
  {
    if n :| n in x.Names() && n in y.Names() {
      if n != x.FullName() && n != y.FullName() {
        var m :| m in x.members && n == x.FullName() + "::" + m.name;
        var m' :| m' in y.members && n == y.FullName() + "::" + m'.name;
        QualifiedUniquely(x.FullName(), m.name, y.FullName(), m'.name);
      }
    }
    assert x.FullName() in x.Names() && y.FullName() in y.Names();
    if NamedAs(x, y) {
      assert y.FullName() in x.Names();
    }
    if NamedAs(y, x) {
      assert x.FullName() in y.Names();
    }
  }

  /**
     Then no name is entered twice if the interfaces, and the members of each, differ, and no member is named
     as an interface.
   */
  lemma NamesOncePlainly(xs: seq<Standing>)
    requires forall i :: 0 <= i < |xs| ==> Plain(xs[i])
    ensures NamesOnce(xs) <==>
            && (forall i :: 0 <= i < |xs| ==> DistinctMembers(xs[i].members))
            && (forall i, j :: 0 <= i < j < |xs| ==> xs[i].FullName() != xs[j].FullName())
            && forall i, j :: 0 <= i < |xs| && 0 <= j < |xs| ==> !NamedAs(xs[i], xs[j])
  {
    hide DistinctMembers, NamedAs;
    forall i, j | 0 <= i < j < |xs|
      ensures xs[i].Names() !! xs[j].Names() <==>
              xs[i].FullName() != xs[j].FullName() && !NamedAs(xs[i], xs[j]) && !NamedAs(xs[j], xs[i])
    {
      SharedName(xs[i], xs[j]);
    }
    forall i | 0 <= i < |xs|
      ensures !NamedAs(xs[i], xs[i])
    {
      NotItsOwnMember(xs[i]);
    }
  }

  lemma NotItsOwnMember(x: Standing)
    ensures !NamedAs(x, x)
  {
    forall m | m in x.members
      ensures x.FullName() + "::" + m.name != x.FullName()
    {
      assert |x.FullName() + "::" + m.name| > |x.FullName()|;
    }
  }

  // ---------- What a file emits ----------

  /** Full names and members. */
  function Outline(xs: seq<Standing>): seq<(Name, seq<Member>)> {
    seq(|xs|, i requires 0 <= i < |xs| => (xs[i].FullName(), xs[i].members))
  }

  lemma OutlineConcat(xs: seq<Standing>, ys: seq<Standing>)
    ensures Outline(xs + ys) == Outline(xs) + Outline(ys)
  {
  }

  lemma {:induction false} ElementEmits(elt: ModuleElt, prefix: Name)
    ensures Emitted(elt, prefix) == Outline(InElement(elt, prefix))
    decreases elt
  {
    if elt.Module? {
      ElementsEmit(elt.elts, prefix + elt.symbol + "::");
    }
  }

  lemma {:induction false} ElementsEmit(elts: seq<ModuleElt>, prefix: Name)
    ensures EmittedAll(elts, prefix) == Outline(InElements(elts, prefix))
    decreases elts
  {
    if elts != [] {
      ElementsEmit(elts[..|elts| - 1], prefix);
      ElementEmits(elts[|elts| - 1], prefix);
      OutlineConcat(InElements(elts[..|elts| - 1], prefix), InElement(elts[|elts| - 1], prefix));
    }
  }

  /**
     A file emits the interfaces that stand in the file itself, in order: none of its includes counts as
     readable here.
   */
  lemma {:induction false} DocumentEmits(doc: seq<DocumentElt>)
    ensures EmittedByDocument(doc) == Outline(InDocument(map[], {}, doc).standing)
  {
    if doc != [] {
      DocumentEmits(doc[..|doc| - 1]);
      var last := doc[|doc| - 1];
      if last.Declare? {
        ElementEmits(last.elt, "");
        OutlineConcat(InDocument(map[], {}, doc[..|doc| - 1]).standing, InElement(last.elt, ""));
      }
    }
  }
}
