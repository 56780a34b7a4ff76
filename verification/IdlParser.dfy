/**
 The semantic actions of the IDL parser: nested modules, interfaces whose ancestors are gathered as soon
 as their header is read, one symbol table shared by all included files, and the guard that parses each
 file once. The input is the sequence of declarations and includes that the grammar recognises.
 */
module IdlParser {
  import opened InheritanceGraph
  import opened MemberCounting
  import opened EagerClosure
  import opened Options
  import opened Sequences

  const NAMESPACE_SEP: Name := "::"

  datatype ModuleElt =
    | Interface(symbol: Name, parents: seq<Name>, members: seq<Member>)
    | Module(symbol: Name, elts: seq<ModuleElt>)

  datatype DocumentElt =
    | Include(path: Name)
    | Declare(elt: ModuleElt)

  /** The readable files, by canonical path. */
  type FileSystem = map<Name, seq<DocumentElt>>

  datatype ParseError =
    | DuplicatedSymbol(symbol: Name)
    | UndefinedSymbol(symbol: Name)
    | InvalidSymbol(symbol: Name)
    | MemberConflict(intf: Name, firstOwner: Name, secondOwner: Name, member: Name)
    | CannotOpen(path: Name)

  /** An entry of the symbol table: an interface, or a member under its qualified name. */
  datatype Symbol =
    | IntfSymbol(node: NodeIntf)
    | MemberSymbol(member: Member)

  datatype Context =
    | RootCtx
    | ModuleCtx(prefix: Name)
    | IntfCtx(node: NodeIntf)
  {
    function Str(): Name {
      match this
      case RootCtx => ""
      case ModuleCtx(prefix) => prefix
      case IntfCtx(node) => node.prefix
    }
  }

  /** What an accepted element emits: the full name and the members of every interface in it, in order. */
  function Emitted(elt: ModuleElt, prefix: Name): seq<(Name, seq<Member>)> {
    match elt
    case Interface(symbol, _, members) => [(prefix + symbol, members)]
    case Module(symbol, elts) => EmittedAll(elts, prefix + symbol + NAMESPACE_SEP)
  }

  function EmittedAll(elts: seq<ModuleElt>, prefix: Name): seq<(Name, seq<Member>)> {
    if elts == [] then []
    else EmittedAll(elts[..|elts| - 1], prefix) + Emitted(elts[|elts| - 1], prefix)
  }

  function EmittedByDocument(doc: seq<DocumentElt>): seq<(Name, seq<Member>)> {
    if doc == [] then []
    else
      EmittedByDocument(doc[..|doc| - 1]) +
      match doc[|doc| - 1]
      case Include(_) => []
      case Declare(elt) => Emitted(elt, "")
  }

  function Shape(decls: seq<Decl>): seq<(Name, seq<Member>)> {
    seq(|decls|, i requires 0 <= i < |decls| => (decls[i].name, decls[i].members))
  }

  lemma ShapeAppend(decls: seq<Decl>, d: Decl)
    ensures Shape(decls + [d]) == Shape(decls) + [(d.name, d.members)]
  {
  }

  lemma EmittedStep(elts: seq<ModuleElt>, i: nat, prefix: Name)
    requires i < |elts|
    ensures EmittedAll(elts[..i + 1], prefix) == EmittedAll(elts[..i], prefix) + Emitted(elts[i], prefix)
  {
    assert elts[..i + 1][..i] == elts[..i];
  }

  lemma EmittedDocumentStep(doc: seq<DocumentElt>, i: nat)
    requires i < |doc|
    ensures EmittedByDocument(doc[..i + 1]) ==
            EmittedByDocument(doc[..i]) + if doc[i].Declare? then Emitted(doc[i].elt, "") else []
  {
    assert doc[..i + 1][..i] == doc[..i];
  }

  /** A symbol is looked up in the innermost module first, then globally. */
  function ResolvedName(known: set<Name>, ctx: Context, symbol: Name): Name {
    if !ctx.RootCtx? && ctx.Str() + symbol in known then ctx.Str() + symbol else symbol
  }

  // When a declaration is welcome.

  /** What the parser knows of the declarations behind it: all names taken, and the interfaces among them. */
  datatype Known = Known(names: set<Name>, entries: Entries)

  function Resolved(names: set<Name>, ctx: Context, parents: seq<Name>): seq<Name> {
    seq(|parents|, i requires 0 <= i < |parents| => ResolvedName(names, ctx, parents[i]))
  }

  function QualifiedNames(prefix: Name, members: seq<Member>): set<Name> {
    set m | m in members :: prefix + m.name
  }

  predicate DistinctMembers(members: seq<Member>) {
    forall i, j :: 0 <= i < j < |members| ==> members[i].name != members[j].name
  }

  predicate NewMembers(names: set<Name>, prefix: Name, members: seq<Member>) {
    DistinctMembers(members) && QualifiedNames(prefix, members) !! names
  }

  function Nodes(entries: Entries): Table {
    map n | n in entries :: entries[n].node
  }

  /** The name is new, and the parents are interfaces that came before. */
  predicate WelcomeHeader(k: Known, ctx: Context, symbol: Name, parents: seq<Name>) {
    && ctx.Str() + symbol !in k.names
    && forall p :: p in parents ==> ResolvedName(k.names, ctx, p) in k.entries
  }

  /**
     An interface may come next: its name and those of its members are new, its parents are interfaces that
     came before, and no two of the interfaces that it is made of share a member name.
   */
  ghost predicate Welcome(k: Known, ctx: Context, symbol: Name, parents: seq<Name>, members: seq<Member>) {
    && WelcomeHeader(k, ctx, symbol, parents)
    && NewMembers(k.names, ctx.Str() + symbol + NAMESPACE_SEP, members)
    && NoConflictWith(Nodes(k.entries), MemberNames(members), Inherited(k.entries, Resolved(k.names, ctx, parents)))
  }

  /** A new interface with its parents under their full names and its gathered ancestors. */
  ghost predicate Fits(k: Known, name: Name, parentNames: seq<Name>, ancestors: set<Name>, members: seq<Member>) {
    && name !in k.names
    && (forall p :: p in parentNames ==> p in k.entries)
    && ancestors == Inherited(k.entries, parentNames)
    && DistinctMembers(members)
  }

  ghost function Enter(k: Known, ctx: Context, symbol: Name, parents: seq<Name>, members: seq<Member>): Known {
    var name, parentNames := ctx.Str() + symbol, Resolved(k.names, ctx, parents);
    Known(k.names + QualifiedNames(name + NAMESPACE_SEP, members) + {name},
          k.entries[name := Entry(Node(parentNames, MemberNames(members)), Inherited(k.entries, parentNames))])
  }

  /** What is known after an element, if every interface in it is welcome at its turn. */
  ghost function AfterElt(k: Known, ctx: Context, elt: ModuleElt): Option<Known>
    decreases elt
  {
    match elt
    case Interface(symbol, parents, members) =>
      if Welcome(k, ctx, symbol, parents, members) then Some(Enter(k, ctx, symbol, parents, members)) else None
    case Module(symbol, elts) => AfterElts(k, ModuleCtx(ctx.Str() + symbol + NAMESPACE_SEP), elts)
  }

  ghost function AfterElts(k: Known, ctx: Context, elts: seq<ModuleElt>): Option<Known>
    decreases elts
  {
    if elts == [] then Some(k)
    else
      match AfterElts(k, ctx, elts[..|elts| - 1])
      case None => None
      case Some(k') => AfterElt(k', ctx, elts[|elts| - 1])
  }

  /** What is known, and which files are listed, at some point of the parse. */
  datatype Stage = Stage(known: Known, files: set<Name>)

  /** A document whose includes can all be opened. */
  ghost function AfterDocument(fs: FileSystem, start: Stage, doc: seq<DocumentElt>): (r: Option<Stage>)
    ensures r.Some? ==> start.files <= r.value.files
    decreases fs.Keys - start.files, |doc|
  {
    if doc == [] then Some(start)
    else
      match AfterDocument(fs, start, doc[..|doc| - 1])
      case None => None
      case Some(now) =>
        match doc[|doc| - 1]
        case Declare(elt) => Listing(AfterElt(now.known, RootCtx, elt), now.files)
        case Include(path) => AfterInclude(fs, now, path)
  }

  /** An include takes the place of the document that it names, unless that is listed already. */
  ghost function AfterInclude(fs: FileSystem, now: Stage, path: Name): (r: Option<Stage>)
    ensures r.Some? ==> now.files <= r.value.files
    decreases fs.Keys - now.files, 0
  {
    if path in now.files then Some(now)
    else if path !in fs then None
    else AfterFile(fs, now, path)
  }

  ghost function AfterFile(fs: FileSystem, now: Stage, path: Name): (r: Option<Stage>)
    requires path in fs && path !in now.files
    ensures r.Some? ==> now.files <= r.value.files
    decreases fs.Keys - now.files - {path}
  {
    AfterDocument(fs, Stage(now.known, now.files + {path}), fs[path])
  }

  ghost function Listing(k: Option<Known>, files: set<Name>): Option<Stage> {
    if k.Some? then Some(Stage(k.value, files)) else None
  }

  lemma AfterDocumentStep(fs: FileSystem, start: Stage, doc: seq<DocumentElt>, i: nat)
    requires i < |doc|
    ensures AfterDocument(fs, start, doc[..i + 1]) ==
            match AfterDocument(fs, start, doc[..i])
            case None => None
            case Some(now) =>
              match doc[i]
              case Declare(elt) => Listing(AfterElt(now.known, RootCtx, elt), now.files)
              case Include(path) => AfterInclude(fs, now, path)
  {
    assert doc[..i + 1][..i] == doc[..i];
  }

  lemma AfterModule(k: Known, ctx: Context, elt: ModuleElt)
    requires elt.Module?
    ensures AfterElt(k, ctx, elt) == AfterElts(k, ModuleCtx(ctx.Str() + elt.symbol + NAMESPACE_SEP), elt.elts)
  {
  }

  lemma AfterStep(k: Known, ctx: Context, elts: seq<ModuleElt>, i: nat)
    requires i < |elts|
    ensures AfterElts(k, ctx, elts[..i + 1]) ==
            match AfterElts(k, ctx, elts[..i]) case None => None case Some(k') => AfterElt(k', ctx, elts[i])
  {
    assert elts[..i + 1][..i] == elts[..i];
  }

  lemma NewMembersStep(names: set<Name>, prefix: Name, members: seq<Member>, i: nat)
    requires i < |members|
    ensures QualifiedNames(prefix, members[..i + 1]) == QualifiedNames(prefix, members[..i]) + {prefix + members[i].name}
    ensures NewMembers(names, prefix, members[..i + 1]) <==>
            && NewMembers(names, prefix, members[..i])
            && prefix + members[i].name !in names + QualifiedNames(prefix, members[..i])
  {
    DistinctMembersStep(members, i);
    assert members[..i + 1] == members[..i] + [members[i]];
    assert prefix + members[i].name in QualifiedNames(prefix, members[..i]) <==>
           members[i].name in MemberNames(members[..i]) by {
      if m :| m in members[..i] && prefix + m.name == prefix + members[i].name {
        assert (prefix + m.name)[|prefix|..] == m.name;
        assert (prefix + members[i].name)[|prefix|..] == members[i].name;
      }
    }
  }

  /** The name of an interface is shorter than the qualified names of its members. */
  lemma FitsWithMembers(k: Known, name: Name, parentNames: seq<Name>, ancestors: set<Name>, members: seq<Member>)
    requires Fits(k, name, parentNames, ancestors, []) && NewMembers(k.names, name + NAMESPACE_SEP, members)
    ensures var k' := Known(k.names + QualifiedNames(name + NAMESPACE_SEP, members), k.entries);
            Fits(k', name, parentNames, ancestors, members)
  {
    forall m | m in members
      ensures name != name + NAMESPACE_SEP + m.name
    {
      assert |name + NAMESPACE_SEP + m.name| > |name|;
    }
  }

  lemma NoMembers(names: set<Name>, prefix: Name, members: seq<Member>)
    ensures NewMembers(names, prefix, members[..0]) && QualifiedNames(prefix, members[..0]) == {}
  {
  }

  lemma DistinctMembersStep(members: seq<Member>, i: nat)
    requires i < |members|
    ensures DistinctMembers(members[..i + 1]) <==>
            DistinctMembers(members[..i]) && members[i].name !in MemberNames(members[..i])
  {
    var front, next := members[..i], members[..i + 1];
    if DistinctMembers(next) {
      forall j, k | 0 <= j < k < i
        ensures front[j].name != front[k].name
      {
        assert next[j].name != next[k].name;
      }
      forall m | m in front
        ensures m.name != members[i].name
      {
        var j :| 0 <= j < i && front[j] == m;
        assert next[j].name != next[i].name;
      }
    }
    if DistinctMembers(front) && members[i].name !in MemberNames(front) {
      forall j, k | 0 <= j < k < i + 1
        ensures next[j].name != next[k].name
      {
        assert front[j].name != members[i].name;
        assert k < i ==> front[j].name != front[k].name;
      }
    }
  }

  /** The state shared by the drivers of all files. */
  class NodeRoot {
    var symTbl: map<Name, Symbol>
    var errors: seq<ParseError>
    var fileList: set<Name>
    /** The interfaces emitted so far by the drivers of all files, in order. */
    var elts: seq<Decl>
    /** The files parsed, in order. */
    ghost var parsed: seq<Name>

    constructor ()
      ensures symTbl == map[] && errors == [] && fileList == {} && elts == [] && parsed == []
    {
      symTbl, errors, fileList, elts, parsed := map[], [], {}, [], [];
    }

    ghost function Interfaces(): set<NodeIntf>
      reads this`symTbl
    {
      set k | k in symTbl && symTbl[k].IntfSymbol? :: symTbl[k].node
    }

    ghost function Entries(): Entries
      reads this`symTbl, Interfaces()`members
    {
      map k | k in symTbl && symTbl[k].IntfSymbol? :: symTbl[k].node.AsEntry()
    }

    ghost function Knowledge(): Known
      reads this`symTbl, Interfaces()`members
    {
      Known(symTbl.Keys, Entries())
    }

    ghost function Now(): Stage
      reads this`symTbl, this`fileList, Interfaces()`members
    {
      Stage(Knowledge(), fileList)
    }

    /** Every gathered ancestor is the interface that the table holds under that name. */
    ghost predicate Pointed(ancestors: map<Name, NodeIntf>)
      reads this`symTbl
    {
      forall a :: a in ancestors ==> a in symTbl && symTbl[a] == IntfSymbol(ancestors[a])
    }

    ghost predicate Consistent()
      reads this`symTbl
    {
      forall k :: k in symTbl && symTbl[k].IntfSymbol? ==> symTbl[k].node.name == k && Pointed(symTbl[k].node.ancestors)
    }

    ghost predicate ListedOnce()
      reads this`symTbl, Interfaces()`members
    {
      forall k :: k in symTbl && symTbl[k].IntfSymbol? ==> DistinctMembers(symTbl[k].node.members)
    }

    /** As long as no error was reported, the gathered closures are those of the emitted declarations. */
    ghost predicate Accepting()
      reads this`symTbl, this`errors, this`elts, Interfaces()`members
    {
      errors == [] ==> Consistent() && ListedOnce() && Agree(elts, Entries())
    }

    /** Every file of the list is readable and was parsed exactly once. */
    ghost predicate ParsedOnce(fs: FileSystem)
      reads this`fileList, this`parsed
    {
      && (forall i, j :: 0 <= i < j < |parsed| ==> parsed[i] != parsed[j])
      && (forall f :: f in fileList <==> f in parsed)
      && fileList <= fs.Keys
    }

    /** Except for the files still being parsed, what a parsed file includes was parsed too. */
    ghost predicate Followed(fs: FileSystem, open: set<Name>)
      reads this`fileList
    {
      forall f, g :: f in fileList && f !in open && Edge(IncludeGraph(fs), f, g) ==> g in fileList
    }

    /** The files added to the list are reached by includes from `from`, or are it. */
    ghost predicate OnlyReached(fs: FileSystem, before: set<Name>, from: Name)
      reads this`fileList
    {
      forall f :: f in fileList && f !in before ==> f == from || Reaches(IncludeGraph(fs), from, f)
    }

    /** The symbol stands for an interface. */
    predicate Resolvable(ctx: Context, symbol: Name)
      reads this`symTbl
    {
      && ResolvedName(symTbl.Keys, ctx, symbol) in symTbl
      && symTbl[ResolvedName(symTbl.Keys, ctx, symbol)].IntfSymbol?
    }

    method Resolve(ctx: Context, symbol: Name) returns (r: Option<NodeIntf>)
      modifies this`errors
      ensures r.Some? ==>
                && errors == old(errors)
                && ResolvedName(symTbl.Keys, ctx, symbol) in symTbl
                && symTbl[ResolvedName(symTbl.Keys, ctx, symbol)] == IntfSymbol(r.value)
      ensures r.None? ==> |errors| > |old(errors)|
      ensures r.Some? <==> Resolvable(ctx, symbol)
    {
      var symName := ResolvedName(symTbl.Keys, ctx, symbol);
      if symName !in symTbl {
        errors := errors + [UndefinedSymbol(symbol)];
        return None;
      }
      match symTbl[symName]
      case IntfSymbol(node) => r := Some(node);
      case MemberSymbol(_) =>
        errors := errors + [InvalidSymbol(symName)];
        r := None;
    }

    /** The parents found so far under their full names, and everything inherited through them. */
    ghost predicate Gathered(ctx: Context, parents: seq<Name>, names: seq<Name>, ancestors: map<Name, NodeIntf>)
      reads this`symTbl, Interfaces()`members
    {
      && |names| == |parents|
      && (forall i :: 0 <= i < |parents| ==> names[i] == ResolvedName(symTbl.Keys, ctx, parents[i]))
      && (forall p :: p in names ==> p in Entries())
      && Pointed(ancestors)
      && ancestors.Keys == Inherited(Entries(), names)
    }

    lemma GatherStep(ctx: Context, parents: seq<Name>, names: seq<Name>, ancestors: map<Name, NodeIntf>,
                     parent: Name, node: NodeIntf)
      requires Consistent() && Gathered(ctx, parents, names, ancestors)
      requires ResolvedName(symTbl.Keys, ctx, parent) in symTbl
      requires symTbl[ResolvedName(symTbl.Keys, ctx, parent)] == IntfSymbol(node)
      ensures Gathered(ctx, parents + [parent], names + [node.name], ancestors[node.name := node] + node.ancestors)
    {
      hide Inherited;
      var k := ResolvedName(symTbl.Keys, ctx, parent);
      assert node.name == k && Pointed(node.ancestors);
      InheritedAppend(Entries(), names, k);
    }

    /** The loop of an interface header over its parents. */
    method GatherParents(ctx: Context, parents: seq<Name>)
      returns (names: seq<Name>, ancestors: map<Name, NodeIntf>)
      requires errors == [] ==> Consistent()
      modifies this`errors
      ensures errors == [] <==> old(errors) == [] && forall p :: p in parents ==> Resolvable(ctx, p)
      ensures errors == [] ==> Gathered(ctx, parents, names, ancestors)
    {
      hide Gathered, Consistent, Resolvable;
      names, ancestors := [], map[];
      GatherNone(ctx);
      var i := 0;
      while i < |parents|
        invariant 0 <= i <= |parents|
        invariant errors == [] <==> old(errors) == [] && forall p :: p in parents[..i] ==> Resolvable(ctx, p)
        invariant errors == [] ==> Gathered(ctx, parents[..i], names, ancestors)
      {
        label H:
        var r := Resolve(ctx, parents[i]);
        if r.Some? {
          var node := r.value;
          if errors == [] {
            assert Interfaces() == old@H(Interfaces()) && unchanged@H(Interfaces());
            GatherStep(ctx, parents[..i], names, ancestors, parents[i], node);
          }
          ancestors := ancestors[node.name := node] + node.ancestors;
          names := names + [node.name];
        }
        assert parents[..i + 1] == parents[..i] + [parents[i]];
        assert forall p :: Resolvable(ctx, p) <==> old(Resolvable(ctx, p));
        i := i + 1;
      }
      assert parents[..i] == parents;
    }

    lemma GatheredAll(ctx: Context, parents: seq<Name>, names: seq<Name>, ancestors: map<Name, NodeIntf>)
      requires Gathered(ctx, parents, names, ancestors)
      ensures names == Resolved(symTbl.Keys, ctx, parents) && forall p :: p in names ==> p in Entries()
      ensures Pointed(ancestors) && ancestors.Keys == Inherited(Entries(), names)
    {
    }

    lemma ResolvableIsEntry(ctx: Context)
      ensures forall p :: Resolvable(ctx, p) <==> ResolvedName(symTbl.Keys, ctx, p) in Entries()
    {
    }

    lemma GatherNone(ctx: Context)
      ensures Gathered(ctx, [], [], map[])
    {
    }
  }

  /** The files that a document includes, in order. */
  function IncludesOf(doc: seq<DocumentElt>): seq<Name> {
    if doc == [] then []
    else
      var rest := IncludesOf(doc[..|doc| - 1]);
      match doc[|doc| - 1]
      case Include(path) => rest + [path]
      case Declare(_) => rest
  }

  /** The include relation between readable files, as a graph. */
  function IncludeGraph(fs: FileSystem): Table {
    map f | f in fs :: Node(IncludesOf(fs[f]), {})
  }

  class NodeIntf {
    const name: Name
    const prefix: Name
    const parentNames: seq<Name>
    const ancestors: map<Name, NodeIntf>
    var members: seq<Member>

    ghost function AsEntry(): Entry
      reads this`members
    {
      Entry(Node(parentNames, MemberNames(members)), ancestors.Keys)
    }

    function AsDecl(): Decl
      reads this`members
    {
      Decl(name, parentNames, members)
    }

    /** The header of an interface: the closure over the parents is taken at once. */
    constructor (root: NodeRoot, ctx: Context, symbol: Name, parents: seq<Name>)
      requires root.errors == [] ==> root.Consistent()
      modifies root`errors
      ensures name == ctx.Str() + symbol && prefix == name + NAMESPACE_SEP && members == []
      ensures root.errors == [] <==>
                old(root.errors) == [] && name !in root.symTbl && forall p :: p in parents ==> root.Resolvable(ctx, p)
      ensures root.errors == [] ==> root.Gathered(ctx, parents, parentNames, ancestors)
    {
      hide NodeRoot.Gathered, NodeRoot.Resolvable;
      var fullName := ctx.Str() + symbol;
      if fullName in root.symTbl {
        root.errors := root.errors + [DuplicatedSymbol(fullName)];
      }
      var names, gathered := root.GatherParents(ctx, parents);
      name, prefix, members := fullName, fullName + NAMESPACE_SEP, [];
      parentNames, ancestors := names, gathered;
    }

    /** Enters one member; its qualified name must be new. */
    method Append(root: NodeRoot, elt: Member)
      modifies this`members, root`symTbl, root`errors
      ensures var symName := prefix + elt.name;
              if symName in old(root.symTbl) then
                && root.errors == old(root.errors) + [DuplicatedSymbol(symName)]
                && root.symTbl == old(root.symTbl) && members == old(members)
              else
                && root.errors == old(root.errors)
                && root.symTbl == old(root.symTbl)[symName := MemberSymbol(elt)] && members == old(members) + [elt]
    {
      var symName := prefix + elt.name;
      if symName in root.symTbl {
        root.errors := root.errors + [DuplicatedSymbol(symName)];
        return;
      }
      root.symTbl := root.symTbl[symName := MemberSymbol(elt)];
      members := members + [elt];
    }

    /** The members of the gathered ancestors, as a table. */
    ghost function InheritedMembers(): Table
      reads ancestors.Values`members
    {
      map a | a in ancestors :: Node([], MemberNames(ancestors[a].members))
    }

    /**
       Finalisation of an interface, which reports exactly when two of the interface and its ancestors share a
       member name, or an ancestor lists one twice.
     */
    method CheckConflicts(root: NodeRoot)
      modifies root`errors
      ensures root.errors == [] <==>
                && old(root.errors) == []
                && NoConflictWith(InheritedMembers(), MemberNames(members), ancestors.Keys)
                && forall a :: a in ancestors ==> DistinctMembers(ancestors[a].members)
    {
      hide NoConflictWith, UnionMembers, DistinctMembers;
      ghost var t, own := InheritedMembers(), MemberNames(members);
      var symMap: map<Name, Name> := map[];
      var i := 0;
      while i < |members|
        invariant 0 <= i <= |members| && symMap.Keys == MemberNames(members[..i])
        invariant root.errors == old(root.errors)
      {
        symMap := symMap[members[i].name := name];
        MemberNamesStep(members, i);
        i := i + 1;
      }
      assert members[..i] == members;
      var todo := ancestors.Keys;
      ghost var done: set<Name> := {};
      WalkNothing(t, own);
      while todo != {}
        invariant todo <= ancestors.Keys && done == ancestors.Keys - todo
        invariant symMap.Keys == own + UnionMembers(t, done)
        invariant root.errors == [] <==>
                    && old(root.errors) == [] && NoConflictWith(t, own, done)
                    && forall a :: a in done ==> DistinctMembers(ancestors[a].members)
      {
        var nameP :| nameP in todo;
        ghost var taken := symMap.Keys;
        symMap := AddMembers(root, nameP, ancestors[nameP].members, symMap);
        NoConflictStep(t, own, done, nameP, taken);
        done, todo := done + {nameP}, todo - {nameP};
      }
      assert done == ancestors.Keys;
    }

    method AddMembers(root: NodeRoot, nameP: Name, membersP: seq<Member>, taken: map<Name, Name>)
      returns (symMap: map<Name, Name>)
      modifies root`errors
      ensures root.errors == [] <==>
                old(root.errors) == [] && taken.Keys !! MemberNames(membersP) && DistinctMembers(membersP)
      ensures symMap.Keys == taken.Keys + MemberNames(membersP)
    {
      hide DistinctMembers;
      symMap := taken;
      var i := 0;
      assert DistinctMembers(membersP[..0]) by {
        NothingDistinct(membersP);
      }
      while i < |membersP|
        invariant 0 <= i <= |membersP|
        invariant root.errors == [] <==>
                    old(root.errors) == [] && taken.Keys !! MemberNames(membersP[..i]) && DistinctMembers(membersP[..i])
        invariant symMap.Keys == taken.Keys + MemberNames(membersP[..i])
      {
        var memberName := membersP[i].name;
        MemberNamesStep(membersP, i);
        DistinctMembersStep(membersP, i);
        if memberName in symMap {
          root.errors := root.errors + [MemberConflict(name, symMap[memberName], nameP, memberName)];
        } else {
          symMap := symMap[memberName := nameP];
        }
        i := i + 1;
      }
      assert membersP[..i] == membersP;
    }
  }

  lemma NothingDistinct(members: seq<Member>)
    ensures DistinctMembers(members[..0])
  {
  }

  /** Only the table, the interfaces in it, the messages and the emitted declarations matter. */
  twostate lemma AcceptingKept(root: NodeRoot)
    requires old(root.Accepting())
    requires root.symTbl == old(root.symTbl) && root.errors == old(root.errors) && root.elts == old(root.elts)
    requires forall k :: k in root.symTbl && root.symTbl[k].IntfSymbol? ==>
               root.symTbl[k].node.members == old(root.symTbl[k].node.members)
    ensures root.Accepting() && root.Knowledge() == old(root.Knowledge())
  {
    assert root.Entries() == old(root.Entries());
  }

  /** Members entered into the table, and nothing else. */
  twostate lemma MembersOnly(root: NodeRoot)
    requires old(root.Accepting()) && (root.errors == [] ==> old(root.errors) == []) && root.elts == old(root.elts)
    requires forall k :: k in old(root.symTbl) ==> k in root.symTbl && root.symTbl[k] == old(root.symTbl[k])
    requires forall k :: k in root.symTbl && root.symTbl[k].IntfSymbol? ==> k in old(root.symTbl)
    requires forall k :: k in root.symTbl && root.symTbl[k].IntfSymbol? ==>
               root.symTbl[k].node.members == old(root.symTbl[k].node.members)
    ensures root.Accepting() && root.Entries() == old(root.Entries()) && root.Interfaces() == old(root.Interfaces())
  {
    assert root.Entries() == old(root.Entries());
  }

  /** The declaration emitted for an interface: full name, resolved parents, its members. */
  ghost predicate Declares(d: Decl, known: set<Name>, ctx: Context, symbol: Name, parents: seq<Name>,
    members: seq<Member>) {
    && d.name == ctx.Str() + symbol && d.members == members && |d.parents| == |parents|
    && forall i :: 0 <= i < |parents| ==> d.parents[i] == ResolvedName(known, ctx, parents[i])
  }

  /** The actions of the parser on one file; the root is shared with the drivers of the other files. */
  class Driver {
    const root: NodeRoot
    var curCtx: Context
    var nodeStack: seq<Context>
    var localElts: seq<Decl>

    /** What this driver emits goes to the interfaces of all drivers as well. */
    predicate Emits()
      reads this`localElts, root`elts
    {
      forall d :: d in localElts ==> d in root.elts
    }

    constructor (root: NodeRoot, filename: Name)
      modifies root`fileList, root`parsed
      ensures this.root == root && curCtx == RootCtx && nodeStack == [] && localElts == []
      ensures root.fileList == old(root.fileList) + {filename} && root.parsed == old(root.parsed) + [filename]
    {
      this.root, curCtx, nodeStack, localElts := root, RootCtx, [], [];
      root.fileList, root.parsed := root.fileList + {filename}, root.parsed + [filename];
    }

    method Push(node: Context)
      modifies this`curCtx, this`nodeStack
      ensures curCtx == node && nodeStack == old(nodeStack) + [old(curCtx)]
    {
      nodeStack := nodeStack + [curCtx];
      curCtx := node;
    }

    method Pop()
      requires nodeStack != []
      modifies this`curCtx, this`nodeStack
      ensures curCtx == old(nodeStack)[|old(nodeStack)| - 1]
      ensures nodeStack == old(nodeStack)[..|old(nodeStack)| - 1]
    {
      curCtx := nodeStack[|nodeStack| - 1];
      nodeStack := nodeStack[..|nodeStack| - 1];
    }

    /** Enters a finished interface under its full name. */
    method AppendInterface(intf: NodeIntf)
      modifies root`symTbl, root`errors
      ensures if intf.name in old(root.symTbl) then
                root.symTbl == old(root.symTbl) && root.errors == old(root.errors) + [DuplicatedSymbol(intf.name)]
              else
                root.symTbl == old(root.symTbl)[intf.name := IntfSymbol(intf)] && root.errors == old(root.errors)
    {
      if intf.name in root.symTbl {
        root.errors := root.errors + [DuplicatedSymbol(intf.name)];
      } else {
        root.symTbl := root.symTbl[intf.name := IntfSymbol(intf)];
      }
    }

    /** The members of an interface, entered one by one. */
    method ParseMembers(intf: NodeIntf, members: seq<Member>)
      requires root.Accepting() && intf !in root.Interfaces() && intf.members == []
      modifies intf`members, root`symTbl, root`errors
      ensures root.Accepting() && intf !in root.Interfaces()
      ensures root.errors == [] <==>
                old(root.errors) == [] && NewMembers(old(root.symTbl.Keys), intf.prefix, members)
      ensures root.errors == [] ==> intf.members == members
      ensures root.errors == [] ==>
                root.Knowledge() == Known(old(root.symTbl.Keys) + QualifiedNames(intf.prefix, members), old(root.Entries()))
      ensures old(root.Pointed(intf.ancestors)) ==> root.Pointed(intf.ancestors)
    {
      hide NewMembers, QualifiedNames, Agree;
      ghost var names := root.symTbl.Keys;
      NoMembers(names, intf.prefix, members);
      var i := 0;
      while i < |members|
        invariant 0 <= i <= |members|
        invariant root.errors == [] <==> old(root.errors) == [] && NewMembers(names, intf.prefix, members[..i])
        invariant root.errors == [] ==> intf.members == members[..i]
        invariant root.errors == [] ==> root.symTbl.Keys == names + QualifiedNames(intf.prefix, members[..i])
        invariant forall k :: k in old(root.symTbl) ==> k in root.symTbl && root.symTbl[k] == old(root.symTbl[k])
        invariant forall k :: k in root.symTbl && root.symTbl[k].IntfSymbol? ==> k in old(root.symTbl)
      {
        NewMembersStep(names, intf.prefix, members, i);
        intf.Append(root, members[i]);
        assert members[..i + 1] == members[..i] + [members[i]];
        i := i + 1;
      }
      assert members[..i] == members;
      MembersOnly(root);
    }

    /** An interface is reported exactly when it is not welcome; otherwise it is emitted and entered. */
    method ParseInterface(symbol: Name, parents: seq<Name>, members: seq<Member>)
      requires root.Accepting()
      modifies this, root`symTbl, root`errors, root`elts
      ensures root.Accepting() && curCtx == old(curCtx) && nodeStack == old(nodeStack)
      ensures root.errors == [] <==>
                old(root.errors) == [] && Welcome(old(root.Knowledge()), curCtx, symbol, parents, members)
      ensures root.errors == [] ==> root.Knowledge() == Enter(old(root.Knowledge()), curCtx, symbol, parents, members)
      ensures |localElts| == |old(localElts)| + 1 && localElts[..|old(localElts)|] == old(localElts)
      ensures root.elts == old(root.elts) + [localElts[|old(localElts)|]]
      ensures root.errors == [] ==>
                Declares(localElts[|old(localElts)|], old(root.symTbl.Keys), curCtx, symbol, parents, members)
    {
      hide Agree, Inherited, NoConflictWith, NewMembers, QualifiedNames, NodeRoot.Accepting, NodeRoot.Pointed;
      ghost var k := root.Knowledge();
      var intf := OpenInterface(symbol, parents);
      ParseMembers(intf, members);
      if root.errors == [] {
        FitsWithMembers(k, intf.name, intf.parentNames, intf.ancestors.Keys, members);
      }
      Finish(intf);
    }

    /** The header of an interface, which becomes the current context. */
    method OpenInterface(symbol: Name, parents: seq<Name>) returns (intf: NodeIntf)
      requires root.Accepting()
      modifies this`curCtx, this`nodeStack, root`errors
      ensures fresh(intf) && intf.name == old(curCtx).Str() + symbol && intf.prefix == intf.name + NAMESPACE_SEP
      ensures intf.members == [] && intf !in root.Interfaces()
      ensures curCtx == IntfCtx(intf) && nodeStack == old(nodeStack) + [old(curCtx)]
      ensures root.Accepting() && root.Knowledge() == old(root.Knowledge())
      ensures root.errors == [] <==>
                old(root.errors) == [] && WelcomeHeader(root.Knowledge(), old(curCtx), symbol, parents)
      ensures root.errors == [] ==>
                Ready(intf) && intf.parentNames == Resolved(root.Knowledge().names, old(curCtx), parents)
    {
      hide Agree, Inherited, NodeRoot.Gathered, NodeRoot.Resolvable;
      root.ResolvableIsEntry(curCtx);
      intf := new NodeIntf(root, curCtx, symbol, parents);
      if root.errors == [] {
        root.GatheredAll(curCtx, parents, intf.parentNames, intf.ancestors);
      }
      Push(IntfCtx(intf));
    }

    /** A new interface that the table may be extended with. */
    ghost predicate Ready(intf: NodeIntf)
      reads root`symTbl, root.Interfaces()`members, intf`members
    {
      && root.Pointed(intf.ancestors)
      && Fits(root.Knowledge(), intf.name, intf.parentNames, intf.ancestors.Keys, intf.members)
    }

    /** The closing brace of an interface: conflict check, emission, and entry into the table. */
    method Finish(intf: NodeIntf)
      requires root.Accepting() && (root.errors == [] ==> Ready(intf)) && intf !in root.Interfaces()
      requires nodeStack != []
      modifies this, root`symTbl, root`errors, root`elts
      ensures root.Accepting()
      ensures root.errors == [] <==>
                old(root.errors) == [] && NoConflictWith(old(Nodes(root.Entries())), MemberNames(intf.members),
                                                         old(Inherited(root.Entries(), intf.parentNames)))
      ensures root.errors == [] ==>
                && root.Entries() == old(root.Entries())[intf.name := intf.AsEntry()]
                && root.symTbl.Keys == old(root.symTbl.Keys) + {intf.name}
      ensures curCtx == old(nodeStack)[|old(nodeStack)| - 1]
      ensures nodeStack == old(nodeStack)[..|old(nodeStack)| - 1]
      ensures localElts == old(localElts) + [intf.AsDecl()] && root.elts == old(root.elts) + [intf.AsDecl()]
    {
      hide Agree, NoConflictWith, Inherited, DistinctMembers, Ready, NodeRoot.Entries, NodeRoot.Consistent,
        NodeRoot.ListedOnce, Nodes;
      ghost var elts, entries := root.elts, root.Entries();
      if root.errors == [] {
        SameMembers(intf, entries);
      }
      intf.CheckConflicts(root);
      var d := intf.AsDecl();
      if root.errors == [] {
        AcceptReady(intf, elts, entries);
      }
      localElts, root.elts := localElts + [d], root.elts + [d];
      Pop();
      EnterInterface(intf);
    }

    lemma AcceptReady(intf: NodeIntf, elts: seq<Decl>, entries: Entries)
      requires entries == root.Entries() && Ready(intf) && Agree(elts, entries)
      requires NoConflictWith(Nodes(entries), MemberNames(intf.members), Inherited(entries, intf.parentNames))
      ensures Agree(elts + [intf.AsDecl()], entries[intf.name := intf.AsEntry()])
    {
      hide NoConflictWith, Inherited, DistinctMembers;
      SameTable(elts, entries);
      hide Agree;
      AcceptOne(elts, entries, intf.AsDecl());
    }

    /** The table with one more interface: its entries and its closures stay in order. */
    method EnterInterface(intf: NodeIntf)
      requires root.errors == [] ==> Ready(intf) && root.Consistent() && root.ListedOnce() && intf !in root.Interfaces()
      modifies root`symTbl, root`errors
      ensures root.errors == [] <==> old(root.errors) == []
      ensures root.errors == [] ==> root.Consistent() && root.ListedOnce()
      ensures root.errors == [] ==>
                && root.Entries() == old(root.Entries())[intf.name := intf.AsEntry()]
                && root.symTbl.Keys == old(root.symTbl.Keys) + {intf.name}
    {
      hide Inherited, DistinctMembers;
      AppendInterface(intf);
    }

    method ParseModuleElt(elt: ModuleElt)
      requires root.Accepting() && Emits()
      modifies this, root`symTbl, root`errors, root`elts
      ensures root.Accepting() && curCtx == old(curCtx) && nodeStack == old(nodeStack)
      ensures Emits() && old(root.elts) <= root.elts
      ensures root.errors == [] <==> old(root.errors) == [] && AfterElt(old(root.Knowledge()), curCtx, elt).Some?
      ensures root.errors == [] ==> AfterElt(old(root.Knowledge()), curCtx, elt) == Some(root.Knowledge())
      ensures root.errors == [] ==> Shape(localElts) == Shape(old(localElts)) + Emitted(elt, curCtx.Str())
      decreases elt, 1
    {
      hide Agree, Welcome, Enter;
      match elt
      case Interface(symbol, parents, members) =>
        ghost var before := localElts;
        ParseInterface(symbol, parents, members);
        ShapeAppend(before, localElts[|before|]);
        assert localElts == before + [localElts[|before|]];
      case Module(symbol, elts) =>
        ParseModule(elt);
    }

    /** The elements of a module, in its context, which is left again at the end. */
    method ParseModule(elt: ModuleElt)
      requires root.Accepting() && elt.Module? && Emits()
      modifies this, root`symTbl, root`errors, root`elts
      ensures root.Accepting() && curCtx == old(curCtx) && nodeStack == old(nodeStack)
      ensures Emits() && old(root.elts) <= root.elts
      ensures root.errors == [] <==> old(root.errors) == [] && AfterElt(old(root.Knowledge()), curCtx, elt).Some?
      ensures root.errors == [] ==> AfterElt(old(root.Knowledge()), curCtx, elt) == Some(root.Knowledge())
      ensures root.errors == [] ==> Shape(localElts) == Shape(old(localElts)) + Emitted(elt, curCtx.Str())
      decreases elt, 0
    {
      hide Agree, Shape, AfterElt;
      ghost var k, prefix := root.Knowledge(), curCtx.Str() + elt.symbol + NAMESPACE_SEP;
      AfterModule(k, curCtx, elt);
      Push(ModuleCtx(curCtx.Str() + elt.symbol + NAMESPACE_SEP));
      AcceptingKept(root);
      var i := 0;
      while i < |elt.elts|
        invariant 0 <= i <= |elt.elts|
        invariant root.Accepting() && nodeStack == old(nodeStack) + [old(curCtx)]
        invariant Emits() && old(root.elts) <= root.elts
        invariant curCtx == ModuleCtx(prefix)
        invariant root.errors == [] <==> old(root.errors) == [] && AfterElts(k, ModuleCtx(prefix), elt.elts[..i]).Some?
        invariant root.errors == [] ==> AfterElts(k, ModuleCtx(prefix), elt.elts[..i]) == Some(root.Knowledge())
        invariant root.errors == [] ==> Shape(localElts) == Shape(old(localElts)) + EmittedAll(elt.elts[..i], prefix)
      {
        AfterStep(k, ModuleCtx(prefix), elt.elts, i);
        ParseModuleElt(elt.elts[i]);
        EmittedStep(elt.elts, i, prefix);
        Associative(Shape(old(localElts)), EmittedAll(elt.elts[..i], prefix), Emitted(elt.elts[i], prefix));
        i := i + 1;
      }
      assert elt.elts[..i] == elt.elts;
      label Inside:
      Pop();
      AcceptingKept@Inside(root);
    }

    /** An include: nothing for a file already in the list, an error for one that cannot be opened. */
    method IncludeFile(fs: FileSystem, path: Name, ghost open: set<Name>) returns (clean: bool)
      requires root.Accepting() && root.ParsedOnce(fs) && root.Followed(fs, open)
      modifies root
      ensures root.Accepting() && root.ParsedOnce(fs) && root.Followed(fs, open) && old(root.elts) <= root.elts
      ensures root.errors == [] <==> old(root.errors) == [] && AfterInclude(fs, old(root.Now()), path).Some?
      ensures root.errors == [] ==> AfterInclude(fs, old(root.Now()), path) == Some(root.Now())
      ensures old(root.fileList) <= root.fileList && (path in fs ==> path in root.fileList)
      ensures root.OnlyReached(fs, old(root.fileList), path)
      ensures clean <==> root.errors == []
      decreases fs.Keys - root.fileList, 1
    {
      if path in root.fileList {
        return root.errors == [];
      }
      if path !in fs {
        root.errors := root.errors + [CannotOpen(path)];
      } else {
        var _ := ParseFile(fs, path, root, open);
      }
      clean := root.errors == [];
    }

    lemma SameMembers(intf: NodeIntf, entries: Entries)
      requires entries == root.Entries() && Ready(intf) && root.ListedOnce()
      ensures NoConflictWith(intf.InheritedMembers(), MemberNames(intf.members), intf.ancestors.Keys) <==>
              NoConflictWith(Nodes(entries), MemberNames(intf.members), Inherited(entries, intf.parentNames))
      ensures forall a :: a in intf.ancestors ==> DistinctMembers(intf.ancestors[a].members)
    {
      hide Inherited, DistinctMembers;
      var own, t, t' := MemberNames(intf.members), intf.InheritedMembers(), Nodes(entries);
      assert forall a :: a in intf.ancestors ==> a in t' && t'[a].members == t[a].members;
      SameConflicts(t, t', own, intf.ancestors.Keys);
    }
  }

  lemma SameConflicts(t: Table, t': Table, own: set<Name>, ancestors: set<Name>)
    requires ancestors <= t.Keys && ancestors <= t'.Keys
    requires forall a :: a in ancestors ==> t[a].members == t'[a].members
    ensures NoConflictWith(t, own, ancestors) <==> NoConflictWith(t', own, ancestors)
  {
  }

  lemma SameTable(elts: seq<Decl>, entries: Entries)
    requires Agree(elts, entries)
    ensures TableOf(elts) == Nodes(entries)
  {
  }

  lemma EmptyDocument(fs: FileSystem, start: Stage, doc: seq<DocumentElt>)
    ensures AfterDocument(fs, start, doc[..0]) == Some(start)
    ensures EmittedByDocument(doc[..0]) == [] && Shape([]) == [] && IncludesOf(doc[..0]) == []
  {
  }

  lemma IncludesStep(doc: seq<DocumentElt>, i: nat)
    requires i < |doc|
    ensures IncludesOf(doc[..i + 1]) == IncludesOf(doc[..i]) + if doc[i].Include? then [doc[i].path] else []
  {
    assert doc[..i + 1][..i] == doc[..i];
  }

  lemma {:induction false} IncludesPrefix(doc: seq<DocumentElt>, i: nat)
    requires i <= |doc|
    ensures forall p :: p in IncludesOf(doc[..i]) ==> p in IncludesOf(doc)
    decreases |doc| - i
  {
    if i == |doc| {
      assert doc[..i] == doc;
    } else {
      IncludesStep(doc, i);
      IncludesPrefix(doc, i + 1);
    }
  }

  lemma ReachedThrough(fs: FileSystem, path: Name, next: Name, f: Name)
    requires Edge(IncludeGraph(fs), path, next)
    requires f == next || Reaches(IncludeGraph(fs), next, f)
    ensures Reaches(IncludeGraph(fs), path, f)
  {
    EdgeReaches(IncludeGraph(fs), path, next);
    if f != next {
      ReachesTransitive(IncludeGraph(fs), path, next, f);
    }
  }

  /**
     One file: it enters the list before its elements are processed, which is what stops include cycles.
     `open` holds the files whose parsing has not ended.
   */
  method ParseFile(fs: FileSystem, path: Name, root: NodeRoot, ghost open: set<Name>) returns (driver: Driver)
    requires path in fs && path !in root.fileList
    requires root.Accepting() && root.ParsedOnce(fs) && root.Followed(fs, open)
    modifies root
    ensures driver.root == root && root.Accepting() && root.ParsedOnce(fs) && root.Followed(fs, open)
    ensures driver.Emits() && old(root.elts) <= root.elts
    ensures root.errors == [] <==> old(root.errors) == [] && AfterFile(fs, old(root.Now()), path).Some?
    ensures root.errors == [] ==> AfterFile(fs, old(root.Now()), path) == Some(root.Now())
    ensures old(root.fileList) <= root.fileList && path in root.fileList
    ensures root.OnlyReached(fs, old(root.fileList), path)
    ensures root.errors == [] ==> Shape(driver.localElts) == EmittedByDocument(fs[path])
    decreases fs.Keys - root.fileList, 0
  {
    hide Agree, AfterElt, AfterInclude, AfterDocument, EmittedByDocument, Shape, Emitted, IncludesOf;
    ghost var g := IncludeGraph(fs);
    driver := new Driver(root, path);
    AcceptingKept(root);
    ghost var start := root.Now();
    var doc := fs[path];
    EmptyDocument(fs, start, doc);
    var i := 0;
    while i < |doc|
      invariant 0 <= i <= |doc| && driver.root == root && fresh(driver)
      invariant driver.Emits() && old(root.elts) <= root.elts
      invariant root.Accepting() && root.ParsedOnce(fs) && root.Followed(fs, open + {path})
      invariant root.errors == [] <==> old(root.errors) == [] && AfterDocument(fs, start, doc[..i]).Some?
      invariant root.errors == [] ==> AfterDocument(fs, start, doc[..i]) == Some(root.Now())
      invariant old(root.fileList) + {path} <= root.fileList
      invariant root.OnlyReached(fs, old(root.fileList), path)
      invariant forall p :: p in IncludesOf(doc[..i]) && p in fs ==> p in root.fileList
      invariant driver.curCtx == RootCtx
      invariant root.errors == [] ==> Shape(driver.localElts) == EmittedByDocument(doc[..i])
    {
      EmittedDocumentStep(doc, i);
      IncludesStep(doc, i);
      AfterDocumentStep(fs, start, doc, i);
      match doc[i] {
        case Declare(elt) =>
          driver.ParseModuleElt(elt);
        case Include(p) =>
          ghost var before := root.fileList;
          IncludesPrefix(doc, i + 1);
          assert Edge(g, path, p) <==> p in fs;
          var clean := driver.IncludeFile(fs, p, open + {path});
          forall f | f in root.fileList && f !in before
            ensures Reaches(g, path, f)
          {
            if f != p {
              ReachesWithinTable(g, p, f);
            }
            ReachedThrough(fs, path, p, f);
          }
      }
      i := i + 1;
    }
    assert doc[..i] == doc;
  }

  lemma MemberNamesStep(members: seq<Member>, i: nat)
    requires i < |members|
    ensures MemberNames(members[..i + 1]) == MemberNames(members[..i]) + {members[i].name}
  {
    assert members[..i + 1] == members[..i] + [members[i]];
  }

  lemma WalkNothing(t: Table, own: set<Name>)
    ensures UnionMembers(t, {}) == {} && NoConflictWith(t, own, {})
  {
  }

  lemma NoConflictStep(t: Table, own: set<Name>, done: set<Name>, nameP: Name, taken: set<Name>)
    requires done <= t.Keys && nameP in t && nameP !in done && taken == own + UnionMembers(t, done)
    ensures NoConflictWith(t, own, done + {nameP}) <==> NoConflictWith(t, own, done) && taken !! t[nameP].members
    ensures taken + t[nameP].members == own + UnionMembers(t, done + {nameP})
  {
    UnionWith(t, done, nameP);
    DisjointWith(t, done, nameP);
  }
}
