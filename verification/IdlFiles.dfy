/**
 Several files, each compiled by itself, and what is linked of them: the declarations that stand in the
 files themselves, without those of their includes. The same interface may be read differently by two
 compilations, because a name is looked up among what each of them has seen before.
 */
module IdlFiles {
  import opened InheritanceGraph
  import opened EagerClosure
  import opened Options
  import opened IdlParser

  const NOTHING_SEEN := Stage(Known({}, map[]), {})

  /** Every include can be opened, and every interface is welcome at its turn, from an empty table on. */
  ghost predicate Compiles(fs: FileSystem, path: Name) {
    path in fs && AfterFile(fs, NOTHING_SEEN, path).Some?
  }

  /** The interfaces that the compilation of a file knows in the end. */
  ghost function EntriesOf(fs: FileSystem, path: Name): Entries
    requires Compiles(fs, path)
  {
    AfterFile(fs, NOTHING_SEEN, path).value.known.entries
  }

  ghost function ParentsIn(entries: Entries, n: Name): seq<Name> {
    if n in entries then entries[n].node.parents else []
  }

  ghost function DeclsOf(emitted: seq<(Name, seq<Member>)>, entries: Entries): (decls: seq<Decl>)
    ensures |decls| == |emitted|
  {
    seq(|emitted|, i requires 0 <= i < |emitted| =>
      Decl(emitted[i].0, ParentsIn(entries, emitted[i].0), emitted[i].1))
  }

  /** What the compilation of a file returns: the interfaces in the file itself, in order. */
  ghost function LocalDecls(fs: FileSystem, path: Name): seq<Decl>
    requires Compiles(fs, path)
  {
    DeclsOf(EmittedByDocument(fs[path]), EntriesOf(fs, path))
  }

  ghost predicate AllCompile(fs: FileSystem, files: seq<Name>) {
    forall f :: f in files ==> Compiles(fs, f)
  }

  ghost function AllDecls(fs: FileSystem, files: seq<Name>): seq<Decl>
    requires AllCompile(fs, files)
  {
    if files == [] then []
    else AllDecls(fs, files[..|files| - 1]) + LocalDecls(fs, files[|files| - 1])
  }

  /** The files that parsing `path` must visit: itself and everything it reaches by includes. */
  ghost function FilesFrom(fs: FileSystem, path: Name): set<Name>
  {
    {path} + AncestorsOf(IncludeGraph(fs), path)
  }

  // ---------- What a compilation knows ----------

  /** The known interfaces could have been declared in some order, each after its parents. */
  ghost predicate Sound(k: Known) {
    k.entries.Keys <= k.names && exists elts :: Agree(elts, k.entries)
  }

  predicate Named(emitted: seq<(Name, seq<Member>)>, n: Name) {
    exists i :: 0 <= i < |emitted| && emitted[i].0 == n
  }

  predicate Kept(entries: Entries, entries': Entries) {
    forall n :: n in entries ==> n in entries' && entries'[n] == entries[n]
  }

  predicate Entered(entries: Entries, emitted: seq<(Name, seq<Member>)>) {
    forall i :: 0 <= i < |emitted| ==>
      emitted[i].0 in entries && entries[emitted[i].0].node.members == MemberNames(emitted[i].1)
  }

  lemma InterfaceGrows(k: Known, ctx: Context, symbol: Name, parents: seq<Name>, members: seq<Member>)
    requires Sound(k) && Welcome(k, ctx, symbol, parents, members)
    ensures var k' := Enter(k, ctx, symbol, parents, members);
            Sound(k') && Kept(k.entries, k'.entries) && k'.entries.Keys == k.entries.Keys + {ctx.Str() + symbol}
  {
    hide Agree, Inherited, NoConflictWith;
    var elts :| Agree(elts, k.entries);
    var d := Decl(ctx.Str() + symbol, Resolved(k.names, ctx, parents), members);
    SameTable(elts, k.entries);
    AcceptOne(elts, k.entries, d);
  }

  lemma {:induction false} EltGrows(k: Known, ctx: Context, elt: ModuleElt)
    requires Sound(k) && AfterElt(k, ctx, elt).Some?
    ensures var k' := AfterElt(k, ctx, elt).value; var emitted := Emitted(elt, ctx.Str());
            && Sound(k') && Kept(k.entries, k'.entries) && Entered(k'.entries, emitted)
            && forall n :: n in k'.entries ==> n in k.entries || Named(emitted, n)
    decreases elt
  {
    hide Sound, Agree;
    match elt
    case Interface(symbol, parents, members) =>
      InterfaceGrows(k, ctx, symbol, parents, members);
      assert Emitted(elt, ctx.Str())[0].0 == ctx.Str() + symbol;
    case Module(symbol, elts) =>
      EltsGrow(k, ModuleCtx(ctx.Str() + symbol + NAMESPACE_SEP), elts);
  }

  lemma {:induction false} EltsGrow(k: Known, ctx: Context, elts: seq<ModuleElt>)
    requires Sound(k) && AfterElts(k, ctx, elts).Some?
    ensures var k' := AfterElts(k, ctx, elts).value; var emitted := EmittedAll(elts, ctx.Str());
            && Sound(k') && Kept(k.entries, k'.entries) && Entered(k'.entries, emitted)
            && forall n :: n in k'.entries ==> n in k.entries || Named(emitted, n)
    decreases elts
  {
    hide Sound, Agree, AfterElt;
    if elts != [] {
      var front, last := elts[..|elts| - 1], elts[|elts| - 1];
      EltsGrow(k, ctx, front);
      var k1 := AfterElts(k, ctx, front).value;
      EltGrows(k1, ctx, last);
      BothEntered(k1.entries, AfterElt(k1, ctx, last).value.entries, EmittedAll(front, ctx.Str()), Emitted(last, ctx.Str()));
    }
  }

  lemma BothEntered(entries: Entries, entries': Entries, xs: seq<(Name, seq<Member>)>, ys: seq<(Name, seq<Member>)>)
    requires Kept(entries, entries') && Entered(entries, xs) && Entered(entries', ys)
    ensures Entered(entries', xs + ys)
    ensures forall n :: Named(xs, n) || Named(ys, n) ==> Named(xs + ys, n)
  {
    forall n | Named(xs, n) || Named(ys, n)
      ensures Named(xs + ys, n)
    {
      if i :| 0 <= i < |xs| && xs[i].0 == n {
        assert (xs + ys)[i].0 == n;
      } else {
        var j :| 0 <= j < |ys| && ys[j].0 == n;
        assert (xs + ys)[|xs| + j].0 == n;
      }
    }
  }

  /** The interface stands in a file that was listed in the meantime. */
  ghost predicate Homed(fs: FileSystem, before: set<Name>, files: set<Name>, n: Name) {
    exists h :: h in files && h !in before && h in fs && Named(EmittedByDocument(fs[h]), n)
  }

  lemma FileIsDocument(fs: FileSystem, now: Stage, path: Name)
    requires path in fs && path !in now.files
    ensures AfterFile(fs, now, path) == AfterDocument(fs, Stage(now.known, now.files + {path}), fs[path])
  {
  }

  /** Whatever a document adds stands in the document or in a file listed because of it. */
  lemma {:induction false} DocumentGrows(fs: FileSystem, start: Stage, doc: seq<DocumentElt>)
    requires Sound(start.known) && AfterDocument(fs, start, doc).Some?
    ensures var end := AfterDocument(fs, start, doc).value; var emitted := EmittedByDocument(doc);
            && Sound(end.known) && Kept(start.known.entries, end.known.entries) && Entered(end.known.entries, emitted)
            && forall n :: n in end.known.entries ==>
                 n in start.known.entries || Named(emitted, n) || Homed(fs, start.files, end.files, n)
    decreases fs.Keys - start.files, |doc|
  {
    hide Sound, Agree, AfterElt, AfterFile;
    if doc != [] {
      var front := doc[..|doc| - 1];
      DocumentGrows(fs, start, front);
      var now, end := AfterDocument(fs, start, front).value, AfterDocument(fs, start, doc).value;
      match doc[|doc| - 1] {
        case Declare(elt) =>
          EltGrows(now.known, RootCtx, elt);
          BothEntered(now.known.entries, end.known.entries, EmittedByDocument(front), Emitted(elt, ""));
        case Include(path) =>
          if path !in now.files {
            FileIsDocument(fs, now, path);
            DocumentGrows(fs, Stage(now.known, now.files + {path}), fs[path]);
          }
          BothEntered(now.known.entries, end.known.entries, EmittedByDocument(front), []);
      }
    }
  }

  ghost predicate IncludeClosed(fs: FileSystem, files: set<Name>) {
    forall f, g :: f in files && Edge(IncludeGraph(fs), f, g) ==> g in files
  }

  lemma {:induction false} FilesWithin(fs: FileSystem, start: Stage, doc: seq<DocumentElt>, files: set<Name>)
    requires IncludeClosed(fs, files) && AfterDocument(fs, start, doc).Some?
    requires forall p :: p in IncludesOf(doc) && p in fs ==> p in files
    ensures AfterDocument(fs, start, doc).value.files <= start.files + files
    decreases fs.Keys - start.files, |doc|
  {
    hide AfterElt, AfterFile;
    if doc != [] {
      var front := doc[..|doc| - 1];
      FilesWithin(fs, start, front, files);
      var now := AfterDocument(fs, start, front).value;
      if doc[|doc| - 1].Include? && doc[|doc| - 1].path !in now.files {
        var path := doc[|doc| - 1].path;
        assert path in IncludesOf(doc);
        FileIsDocument(fs, now, path);
        assert forall p :: p in IncludesOf(fs[path]) && p in fs ==> Edge(IncludeGraph(fs), path, p);
        FilesWithin(fs, Stage(now.known, now.files + {path}), fs[path], files);
      }
    }
  }

  lemma NothingIsSound()
    ensures Sound(NOTHING_SEEN.known)
  {
    var t := TableOf([]);
    forall a
      ensures !Reaches(t, a, a)
    {
      if Reaches(t, a, a) {
        ReachesWithinTable(t, a, a);
      }
    }
    assert Agree([], map[]);
  }

  /** What a compilation knows could be linked, and every interface in it stands in one of the files. */
  lemma CompilationKnows(fs: FileSystem, path: Name, files: set<Name>) returns (elts: seq<Decl>)
    requires Compiles(fs, path) && path in files && IncludeClosed(fs, files)
    ensures Agree(elts, EntriesOf(fs, path))
    ensures Entered(EntriesOf(fs, path), EmittedByDocument(fs[path]))
    ensures forall n :: n in EntriesOf(fs, path) ==> Homed(fs, {}, files, n)
  {
    hide Agree;
    var start := Stage(NOTHING_SEEN.known, NOTHING_SEEN.files + {path});
    FileIsDocument(fs, NOTHING_SEEN, path);
    NothingIsSound();
    DocumentGrows(fs, start, fs[path]);
    assert forall p :: p in IncludesOf(fs[path]) && p in fs ==> Edge(IncludeGraph(fs), path, p);
    FilesWithin(fs, start, fs[path], files);
    elts :| Agree(elts, EntriesOf(fs, path));
  }

  // ---------- Linking them together ----------

  function Given(files: seq<Name>): set<Name> {
    set f | f in files
  }

  /** Two compilations that know the same interface have read it in the same way. */
  ghost predicate SameView(fs: FileSystem, files: seq<Name>)
    requires AllCompile(fs, files)
  {
    forall f, g, n :: f in files && g in files && n in EntriesOf(fs, f) && n in EntriesOf(fs, g) ==>
      EntriesOf(fs, f)[n].node == EntriesOf(fs, g)[n].node
  }

  /** The files include no others, no name is declared twice, and nothing is read in two ways. */
  ghost predicate Coherent(fs: FileSystem, files: seq<Name>) {
    && AllCompile(fs, files)
    && IncludeClosed(fs, Given(files))
    && DistinctNames(AllDecls(fs, files))
    && SameView(fs, files)
  }

  lemma {:induction false} LocalIsThere(fs: FileSystem, files: seq<Name>, f: Name, d: Decl)
    requires AllCompile(fs, files) && f in files && d in LocalDecls(fs, f)
    ensures d in AllDecls(fs, files)
  {
    hide Compiles, LocalDecls;
    if files[|files| - 1] != f {
      LocalIsThere(fs, files[..|files| - 1], f, d);
    }
  }

  lemma {:induction false} ThereIsLocal(fs: FileSystem, files: seq<Name>, d: Decl) returns (f: Name)
    requires AllCompile(fs, files) && d in AllDecls(fs, files)
    ensures f in files && d in LocalDecls(fs, f)
  {
    hide Compiles, LocalDecls;
    f := files[|files| - 1];
    if d !in LocalDecls(fs, f) {
      f := ThereIsLocal(fs, files[..|files| - 1], d);
    }
  }

  lemma EntryInTable(fs: FileSystem, files: seq<Name>, f: Name, n: Name)
    requires Coherent(fs, files) && f in files && n in EntriesOf(fs, f)
    ensures n in TableOf(AllDecls(fs, files)) && TableOf(AllDecls(fs, files))[n] == EntriesOf(fs, f)[n].node
  {
    hide Agree, AfterFile, EmittedByDocument;
    var _ := CompilationKnows(fs, f, Given(files));
    var h :| h in files && h in fs && Named(EmittedByDocument(fs[h]), n);
    var _ := CompilationKnows(fs, h, Given(files));
    var i :| 0 <= i < |EmittedByDocument(fs[h])| && EmittedByDocument(fs[h])[i].0 == n;
    var d, all := LocalDecls(fs, h)[i], AllDecls(fs, files);
    LocalIsThere(fs, files, h, d);
    var j :| 0 <= j < |all| && all[j] == d;
    TableEntry(all, j);
  }

  lemma TableInEntries(fs: FileSystem, files: seq<Name>, n: Name) returns (f: Name)
    requires Coherent(fs, files) && n in TableOf(AllDecls(fs, files))
    ensures f in files && n in EntriesOf(fs, f)
  {
    hide Agree, AfterFile, EmittedByDocument;
    var all := AllDecls(fs, files);
    TableKeys(all);
    var d :| d in all && d.name == n;
    f := ThereIsLocal(fs, files, d);
    var _ := CompilationKnows(fs, f, Given(files));
  }

  /** The interfaces of t are in t' as well, with all their parents. */
  ghost predicate Within(t: Table, t': Table) {
    AllParentsDefined(t) && forall n :: n in t ==> n in t' && t'[n] == t[n]
  }

  lemma WithinReaches(t: Table, t': Table, n: Name, b: Name)
    requires Within(t, t') && n in t
    ensures Reaches(t', n, b) <==> Reaches(t, n, b)
  {
    if p :| Connects(t', p, n, b) {
      var i := 0;
      while i < |p| - 1
        invariant 0 <= i <= |p| - 1 && p[i] in t
        invariant forall j :: 0 <= j < i ==> Edge(t, p[j], p[j + 1])
      {
        assert Edge(t', p[i], p[i + 1]);
        i := i + 1;
      }
      assert Connects(t, p, n, b);
    }
    if p :| Connects(t, p, n, b) {
      assert forall i :: 0 <= i < |p| - 1 && Edge(t, p[i], p[i + 1]) ==> Edge(t', p[i], p[i + 1]);
      assert Connects(t', p, n, b);
    }
  }

  lemma WithinAncestors(t: Table, t': Table, n: Name)
    requires Within(t, t') && n in t
    ensures AncestorsOf(t', n) == AncestorsOf(t, n)
  {
    forall b
      ensures b in AncestorsOf(t', n) <==> b in AncestorsOf(t, n)
    {
      WithinReaches(t, t', n, b);
      if Reaches(t, n, b) {
        ReachesWithinTable(t, n, b);
      }
    }
  }

  /** What holds of an interface in t holds in t' as well. */
  lemma WithinVerdict(t: Table, t': Table, n: Name)
    requires Within(t, t') && n in t && Acyclic(t) && ConflictFree(t)
    ensures AncestorsOf(t', n) == AncestorsOf(t, n) && !Reaches(t', n, n) && DisjointMembers(t', Family(t', n))
  {
    WithinReaches(t, t', n, n);
    WithinAncestors(t, t', n);
    assert DisjointMembers(t, Family(t, n));
  }

  lemma CompilationWithin(fs: FileSystem, files: seq<Name>, f: Name) returns (elts: seq<Decl>)
    requires Coherent(fs, files) && f in files
    ensures Agree(elts, EntriesOf(fs, f)) && Within(TableOf(elts), TableOf(AllDecls(fs, files)))
  {
    elts := CompilationKnows(fs, f, Given(files));
    hide Coherent, EntriesOf, Compiles;
    forall n | n in TableOf(elts)
      ensures n in TableOf(AllDecls(fs, files)) && TableOf(AllDecls(fs, files))[n] == TableOf(elts)[n]
    {
      EntryInTable(fs, files, f, n);
    }
  }

  /** Linking several files finds for every interface what each compilation that knows it has found. */
  lemma OneView(fs: FileSystem, files: seq<Name>, f: Name, n: Name)
    requires Coherent(fs, files) && f in files && n in EntriesOf(fs, f)
    ensures var all := TableOf(AllDecls(fs, files));
            && n in all && !Reaches(all, n, n) && DisjointMembers(all, Family(all, n))
            && (forall p :: p in all[n].parents ==> p in all)
            && AncestorsOf(all, n) == EntriesOf(fs, f)[n].ancestors
  {
    var elts := CompilationWithin(fs, files, f);
    hide Coherent, EntriesOf, Compiles, AllDecls;
    WithinVerdict(TableOf(elts), TableOf(AllDecls(fs, files)), n);
  }

  /** Coherent files can be linked, whatever the order, and the ancestors of every interface are as compiled. */
  lemma LinkedTogether(fs: FileSystem, files: seq<Name>)
    requires Coherent(fs, files)
    ensures Linkable(AllDecls(fs, files))
    ensures forall f, n :: f in files && n in EntriesOf(fs, f) ==>
              AncestorsOf(TableOf(AllDecls(fs, files)), n) == EntriesOf(fs, f)[n].ancestors
  {
    var all := TableOf(AllDecls(fs, files));
    forall f, n | f in files && n in EntriesOf(fs, f)
      ensures AncestorsOf(all, n) == EntriesOf(fs, f)[n].ancestors
    {
      OneView(fs, files, f, n);
    }
    forall n | n in all
      ensures !Reaches(all, n, n) && DisjointMembers(all, Family(all, n)) && forall p :: p in all[n].parents ==> p in all
    {
      var f := TableInEntries(fs, files, n);
      OneView(fs, files, f, n);
    }
  }

  // ---------- Two readings of one interface ----------

  const P := Member("p", 'a')
  const IN_M := ModuleCtx("M" + NAMESPACE_SEP)

  const FILE_A := [Declare(Module("M", [Interface("X", [], [])])), Include("b"), Declare(Interface("Z", ["M::Y"], [P]))]
  const FILE_B := [Declare(Interface("X", [], [P])), Declare(Module("M", [Interface("Y", ["X"], [])]))]

  /** The second file alone reads X in module M as the global one; after the first file it is the X of M. */
  const TWO_FILES: FileSystem := map["a" := FILE_A, "b" := FILE_B]

  const X_ENTRY := Entry(Node([], {"p"}), {})
  const MX_ENTRY := Entry(Node([], {}), {})

  lemma Names()
    ensures "M" + NAMESPACE_SEP + "X" == "M::X" && "M" + NAMESPACE_SEP + "Y" == "M::Y"
    ensures "X" + NAMESPACE_SEP + "p" == "X::p" && "Z" + NAMESPACE_SEP + "p" == "Z::p"
    ensures "M::X"[3] != "M::Y"[3] && "M::X"[0] != "X::p"[0] && "X::p"[0] != "Z::p"[0]
    ensures forall x: Name :: "" + x == x
  {
  }

  lemma OneOrNone(prefix: Name)
    ensures MemberNames([]) == {} && QualifiedNames(prefix, []) == {} && DistinctMembers([])
    ensures MemberNames([P]) == {"p"} && QualifiedNames(prefix, [P]) == {prefix + "p"} && DistinctMembers([P])
  {
    assert P in [P];
  }

  /** An interface without parents. */
  lemma First(k: Known, ctx: Context, symbol: Name, members: seq<Member>, name: Name)
    requires name == ctx.Str() + symbol && name !in k.names && NewMembers(k.names, name + NAMESPACE_SEP, members)
    ensures Welcome(k, ctx, symbol, [], members)
    ensures Enter(k, ctx, symbol, [], members) ==
            Known(k.names + QualifiedNames(name + NAMESPACE_SEP, members) + {name},
                  k.entries[name := Entry(Node([], MemberNames(members)), {})])
  {
    assert Resolved(k.names, ctx, []) == [];
    assert Inherited(k.entries, []) == {};
  }

  /** An interface with one parent. */
  lemma Second(k: Known, ctx: Context, symbol: Name, parent: Name, members: seq<Member>, name: Name, q: Name)
    requires name == ctx.Str() + symbol && name !in k.names && NewMembers(k.names, name + NAMESPACE_SEP, members)
    requires ResolvedName(k.names, ctx, parent) == q && q in k.entries && k.entries[q].ancestors <= k.entries.Keys
    requires NoConflictWith(Nodes(k.entries), MemberNames(members), {q} + k.entries[q].ancestors)
    ensures Welcome(k, ctx, symbol, [parent], members)
    ensures Enter(k, ctx, symbol, [parent], members) ==
            Known(k.names + QualifiedNames(name + NAMESPACE_SEP, members) + {name},
                  k.entries[name := Entry(Node([q], MemberNames(members)), {q} + k.entries[q].ancestors)])
  {
    assert Resolved(k.names, ctx, [parent]) == [q];
    assert Inherited(k.entries, []) == {};
    InheritedAppend(k.entries, [], q);
    assert [] + [q] == [q];
    assert {} + {q} + k.entries[q].ancestors == {q} + k.entries[q].ancestors;
  }

  lemma OneInModule(k: Known, symbol: Name, parents: seq<Name>, members: seq<Member>)
    requires Welcome(k, IN_M, symbol, parents, members)
    ensures AfterElt(k, RootCtx, Module("M", [Interface(symbol, parents, members)])) ==
            Some(Enter(k, IN_M, symbol, parents, members))
  {
    hide Welcome, Enter;
    var elts := [Interface(symbol, parents, members)];
    AfterModule(k, RootCtx, Module("M", elts));
    assert "" + "M" + NAMESPACE_SEP == "M" + NAMESPACE_SEP;
    assert elts[..0] == [];
    assert AfterElts(k, IN_M, elts[..0]) == Some(k);
    assert elts[..1] == elts;
    AfterStep(k, IN_M, elts, 0);
  }

  /** The second file, given what is known and listed before it, and how the X in its module is resolved. */
  lemma ReadB(start: Stage, x: Name, k1: Known, k2: Known)
    requires "X" !in start.known.names && "X::p" !in start.known.names && "M::Y" !in start.known.names
    requires k1 == Known(start.known.names + {"X", "X::p"}, start.known.entries["X" := X_ENTRY])
    requires ResolvedName(k1.names, IN_M, "X") == x && x in k1.entries && k1.entries[x].ancestors == {}
    requires k2 == Known(k1.names + {"M::Y"}, k1.entries["M::Y" := Entry(Node([x], {}), {x})])
    ensures AfterDocument(TWO_FILES, start, FILE_B) == Some(Stage(k2, start.files))
  {
    Names();
    OneOrNone("X::");
    OneOrNone("M::Y::");
    First(start.known, RootCtx, "X", [P], "X");
    assert Enter(start.known, RootCtx, "X", [], [P]) == k1;
    Second(k1, IN_M, "Y", "X", [], "M::Y", x);
    assert {x} + k1.entries[x].ancestors == {x};
    assert Enter(k1, IN_M, "Y", ["X"], []) == k2;
    OneInModule(k1, "Y", ["X"], []);
    hide Welcome, Enter;
    assert FILE_B[..0] == [] && FILE_B[..2] == FILE_B;
    AfterDocumentStep(TWO_FILES, start, FILE_B, 0);
    AfterDocumentStep(TWO_FILES, start, FILE_B, 1);
  }

  lemma BAlone()
    ensures Compiles(TWO_FILES, "b") && "X" in EntriesOf(TWO_FILES, "b") && "M::Y" in EntriesOf(TWO_FILES, "b")
    ensures EntriesOf(TWO_FILES, "b")["X"].node.parents == [] && EntriesOf(TWO_FILES, "b")["M::Y"].node.parents == ["X"]
  {
    Names();
    var start := Stage(NOTHING_SEEN.known, NOTHING_SEEN.files + {"b"});
    FileIsDocument(TWO_FILES, NOTHING_SEEN, "b");
    var k1 := Known({"X", "X::p"}, map["X" := X_ENTRY]);
    ReadB(start, "X", k1, Known(k1.names + {"M::Y"}, k1.entries["M::Y" := Entry(Node(["X"], {}), {"X"})]));
  }

  /** The first file up to its include, and its last interface. */
  lemma BeforeInclude(k0: Known, j1: Known)
    requires k0 == NOTHING_SEEN.known && j1 == Known({"M::X"}, map["M::X" := MX_ENTRY])
    ensures AfterElt(k0, RootCtx, FILE_A[0].elt) == Some(j1)
  {
    Names();
    OneOrNone("M::X::");
    First(k0, IN_M, "X", [], "M::X");
    assert Enter(k0, IN_M, "X", [], []) == j1;
    OneInModule(k0, "X", [], []);
  }

  lemma AfterTheInclude(k2: Known)
    requires k2 == Known({"M::X", "X", "X::p", "M::Y"},
                         map["M::X" := MX_ENTRY, "X" := X_ENTRY, "M::Y" := Entry(Node(["M::X"], {}), {"M::X"})])
    ensures var r := AfterElt(k2, RootCtx, FILE_A[2].elt);
            r.Some? && "Z" in r.value.entries && r.value.entries["Z"].node.parents == ["M::Y"]
    ensures forall n :: n in k2.entries ==> AfterElt(k2, RootCtx, FILE_A[2].elt).value.entries[n] == k2.entries[n]
  {
    Names();
    OneOrNone("Z::");
    Second(k2, RootCtx, "Z", "M::Y", [P], "Z", "M::Y");
  }

  lemma AAlone()
    ensures Compiles(TWO_FILES, "a") && "M::X" in EntriesOf(TWO_FILES, "a") && "Z" in EntriesOf(TWO_FILES, "a")
    ensures EntriesOf(TWO_FILES, "a")["Z"].node.parents == ["M::Y"] && EntriesOf(TWO_FILES, "a")["M::X"] == MX_ENTRY
  {
    Names();
    var start := Stage(NOTHING_SEEN.known, NOTHING_SEEN.files + {"a"});
    FileIsDocument(TWO_FILES, NOTHING_SEEN, "a");
    var j1 := Known({"M::X"}, map["M::X" := MX_ENTRY]);
    var k1 := Known({"M::X", "X", "X::p"}, map["M::X" := MX_ENTRY, "X" := X_ENTRY]);
    var k2 := Known({"M::X", "X", "X::p", "M::Y"},
                    map["M::X" := MX_ENTRY, "X" := X_ENTRY, "M::Y" := Entry(Node(["M::X"], {}), {"M::X"})]);
    BeforeInclude(NOTHING_SEEN.known, j1);
    FileIsDocument(TWO_FILES, Stage(j1, start.files), "b");
    ReadB(Stage(j1, start.files + {"b"}), "M::X", k1, k2);
    AfterTheInclude(k2);
    hide AfterElt, AfterFile;
    assert FILE_A[..0] == [] && FILE_A[..3] == FILE_A;
    AfterDocumentStep(TWO_FILES, start, FILE_A, 0);
    AfterDocumentStep(TWO_FILES, start, FILE_A, 1);
    AfterDocumentStep(TWO_FILES, start, FILE_A, 2);
  }

  lemma WhatAEmits()
    ensures EmittedByDocument(FILE_A) == [("M::X", []), ("Z", [P])]
  {
    Names();
    assert FILE_A[..0] == [] && FILE_A[..3] == FILE_A;
    EmittedDocumentStep(FILE_A, 0);
    EmittedDocumentStep(FILE_A, 1);
    EmittedDocumentStep(FILE_A, 2);
    OneEmitted(Interface("X", [], []));
  }

  lemma WhatBEmits()
    ensures EmittedByDocument(FILE_B) == [("X", [P]), ("M::Y", [])]
  {
    Names();
    assert FILE_B[..0] == [] && FILE_B[..2] == FILE_B;
    EmittedDocumentStep(FILE_B, 0);
    EmittedDocumentStep(FILE_B, 1);
    OneEmitted(Interface("Y", ["X"], []));
  }

  lemma OneEmitted(elt: ModuleElt)
    requires elt.Interface?
    ensures Emitted(Module("M", [elt]), "") == [("M" + NAMESPACE_SEP + elt.symbol, elt.members)]
  {
    assert [elt][..0] == [] && [elt][..1] == [elt];
    EmittedStep([elt], 0, "M" + NAMESPACE_SEP);
    assert "" + "M" + NAMESPACE_SEP == "M" + NAMESPACE_SEP;
  }

  /**
     A condition like the last of Coherent is needed: these two files compile, include no other file and declare
     four interfaces of different names. But Z inherits from M::Y, which the compilation of the first file has
     read as a child of M::X, and that of the second as a child of X, whose member p is that of Z.
   */
  lemma ReadDifferently()
    ensures var files := ["a", "b"];
            && AllCompile(TWO_FILES, files) && IncludeClosed(TWO_FILES, Given(files))
            && DistinctNames(AllDecls(TWO_FILES, files)) && !Linkable(AllDecls(TWO_FILES, files))
  {
    Names();
    AAlone();
    BAlone();
    WhatAEmits();
    WhatBEmits();
    var files := ["a", "b"];
    assert LocalDecls(TWO_FILES, "a") == [Decl("M::X", [], []), Decl("Z", ["M::Y"], [P])];
    assert LocalDecls(TWO_FILES, "b") == [Decl("X", [], [P]), Decl("M::Y", ["X"], [])];
    hide Compiles, LocalDecls;
    TwoFiles(TWO_FILES, "a", "b");
    Clash(AllDecls(TWO_FILES, files));
  }

  lemma TwoFiles(fs: FileSystem, f: Name, g: Name)
    requires Compiles(fs, f) && Compiles(fs, g)
    ensures AllDecls(fs, [f, g]) == LocalDecls(fs, f) + LocalDecls(fs, g)
  {
    hide Compiles, LocalDecls;
    assert [f, g][..1] == [f] && [f][..0] == [];
    assert AllDecls(fs, [f]) == LocalDecls(fs, f);
  }

  lemma Clash(all: seq<Decl>)
    requires all == [Decl("M::X", [], []), Decl("Z", ["M::Y"], [P]), Decl("X", [], [P]), Decl("M::Y", ["X"], [])]
    ensures DistinctNames(all) && !Linkable(all)
  {
    Names();
    var t := TableOf(all);
    TableEntry(all, 1);
    TableEntry(all, 2);
    TableEntry(all, 3);
    assert Edge(t, "Z", "M::Y") && Edge(t, "M::Y", "X");
    EdgeReaches(t, "Z", "M::Y");
    EdgeReaches(t, "M::Y", "X");
    ReachesTransitive(t, "Z", "M::Y", "X");
    assert P in all[1].members && P in all[2].members;
    assert "p" in t["Z"].members && "p" in t["X"].members;
    assert "X" in Family(t, "Z") && "Z" in Family(t, "Z");
  }
}
