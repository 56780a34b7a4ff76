/**
 Compiling files, each as the root of a parse of its own, and linking what they declare: the two closure
 computations meet here.
 */
module IdlCompiler {
  import opened InheritanceGraph
  import opened EagerClosure
  import opened Options
  import opened IdlParser
  import opened IdlFiles
  import opened IdlAcceptance
  import LinkReport
  import Linker

  /**
     Parses a root file. Whatever the include graph, the call returns, and it has parsed exactly the
     readable files reachable by includes, each one once. It reports nothing exactly when every include can be
     opened and the interfaces are acceptable in the order in which they stand.
   */
  method Parse(fs: FileSystem, path: Name) returns (r: Option<Driver>)
    ensures r.None? <==> path !in fs
    ensures r.Some? ==>
              && r.value.root.fileList == FilesFrom(fs, path)
              && r.value.root.ParsedOnce(fs)
              && r.value.root.Accepting()
              && (r.value.root.errors == [] <==> Compiles(fs, path))
              && (r.value.root.errors == [] <==> Openable(fs, path) && Acceptable(InFile(fs, path)))
    ensures Compiles(fs, path) ==> r.Some? && r.value.localElts == LocalDecls(fs, path)
  {
    if path !in fs {
      return None;
    }
    var root := new NodeRoot();
    NothingDeclared(root);
    assert root.Now() == NOTHING_SEEN;
    var driver := ParseFile(fs, path, root, {});
    ghost var g := IncludeGraph(fs);
    forall f | f in AncestorsOf(g, path)
      ensures f in root.fileList
    {
      ClosedUnderReaches(g, root.fileList, path, f);
    }
    forall f | f in root.fileList
      ensures f in FilesFrom(fs, path)
    {
      assert f in g;
    }
    if root.errors == [] {
      LocalsAreDeclared(driver.localElts, root.elts, root.Entries());
    }
    CompilesExactly(fs, path);
    r := Some(driver);
  }

  lemma LocalsAreDeclared(locals: seq<Decl>, elts: seq<Decl>, entries: Entries)
    requires Agree(elts, entries) && forall d :: d in locals ==> d in elts
    ensures locals == DeclsOf(Shape(locals), entries)
  {
    hide Acyclic, ConflictFree, AllParentsDefined;
    forall i | 0 <= i < |locals|
      ensures locals[i] == DeclsOf(Shape(locals), entries)[i]
    {
      assert locals[i] in elts;
      var j :| 0 <= j < |elts| && elts[j] == locals[i];
      TableEntry(elts, j);
    }
  }

  lemma NothingDeclared(root: NodeRoot)
    requires root.symTbl == map[] && root.elts == []
    ensures root.Accepting() && root.Knowledge() == Known({}, map[])
  {
    var t := TableOf([]);
    assert t == map[];
    forall a
      ensures !Reaches(t, a, a)
    {
      if Reaches(t, a, a) {
        ReachesWithinTable(t, a, a);
      }
    }
  }

  /**
     What compiles is linked: if the parser accepts, so does the linker, and for every interface the ancestors
     gathered by the parser are those gathered by the linker.
   */
  method CompileAndLink(fs: FileSystem, path: Name) returns (root: Option<NodeRoot>, idlc: Linker.IDLc, linked: bool)
    ensures linked <==> Compiles(fs, path)
    ensures linked ==>
              && root.Some? && root.value.errors == [] && idlc.errors == []
              && idlc.symTbl.Keys == root.value.Entries().Keys
              && forall n :: n in idlc.symTbl ==>
                   && idlc.symTbl[n].ancestors.Keys == root.value.symTbl[n].node.ancestors.Keys
                   && idlc.symTbl[n].ancestors.Keys == AncestorsOf(TableOf(root.value.elts), n)
  {
    hide AfterFile, LocalDecls, Agree, Linkable, Acyclic, LinkReport.Justified, LinkReport.NoCycleReported;
    var driver := Parse(fs, path);
    root := if driver.None? then None else Some(driver.value.root);
    if root.None? || root.value.errors != [] {
      idlc := new Linker.IDLc();
      linked := false;
      return;
    }
    ghost var entries := root.value.Entries();
    assert Agree(root.value.elts, entries);
    SameClosure(root.value.elts, entries, TableOf(root.value.elts));
    idlc := new Linker.IDLc();
    linked := idlc.Link(root.value.elts);
    assert idlc.symTbl.Keys == idlc.Graph().Keys;
  }

  lemma SameClosure(elts: seq<Decl>, entries: Entries, g: Table)
    requires Agree(elts, entries) && g == TableOf(elts)
    ensures Linkable(elts) && Acyclic(g) && entries.Keys == g.Keys
    ensures forall n :: n in g ==> entries[n].ancestors == AncestorsOf(g, n)
  {
  }

  // ---------- The command ----------

  /** The declarations of all files, one after the other, unless one of them does not compile. */
  method CompileFiles(fs: FileSystem, files: seq<Name>) returns (elements: seq<Decl>, compiled: bool)
    ensures compiled <==> AllCompile(fs, files)
    ensures compiled ==> elements == AllDecls(fs, files)
  {
    hide Compiles, LocalDecls;
    elements, compiled := [], true;
    var i := 0;
    while i < |files|
      invariant 0 <= i <= |files|
      invariant AllCompile(fs, files[..i]) && elements == AllDecls(fs, files[..i])
    {
      var driver := Parse(fs, files[i]);
      if driver.None? || driver.value.root.errors != [] {
        NoFile(fs, files[i]);
        compiled := false;
        return;
      }
      assert files[..i + 1] == files[..i] + [files[i]] && files[..i + 1][..i] == files[..i];
      elements := elements + driver.value.localElts;
      i := i + 1;
    }
    assert files[..i] == files;
  }

  lemma NoFile(fs: FileSystem, path: Name)
    ensures path !in fs ==> !Compiles(fs, path)
  {
  }

  /**
     The command succeeds exactly when every file is accepted and their declarations together are linkable. That is
     so for coherent files, and then the linker has gathered the ancestors that each compilation had gathered.
   */
  method Execute(fs: FileSystem, files: seq<Name>) returns (linked: bool, idlc: Linker.IDLc)
    ensures linked <==> AllCompile(fs, files) && Linkable(AllDecls(fs, files))
    ensures AllCompile(fs, files) <==> forall f :: f in files ==> Accepted(fs, f)
    ensures linked ==>
              && idlc.errors == [] && idlc.symTbl.Keys == TableOf(AllDecls(fs, files)).Keys
              && forall n :: n in idlc.symTbl ==>
                   idlc.symTbl[n].ancestors.Keys == AncestorsOf(TableOf(AllDecls(fs, files)), n)
    ensures Coherent(fs, files) ==>
              && linked
              && forall f, n :: f in files && n in EntriesOf(fs, f) ==>
                   n in idlc.symTbl && idlc.symTbl[n].ancestors.Keys == EntriesOf(fs, f)[n].ancestors
  {
    hide Linkable, Compiles, AllDecls, EntriesOf, Accepted, LinkReport.Justified, LinkReport.NoCycleReported;
    AllCompileExactly(fs, files);
    idlc := new Linker.IDLc();
    var elements, compiled := CompileFiles(fs, files);
    if !compiled {
      linked := false;
      return;
    }
    linked := idlc.Link(elements);
    assert idlc.symTbl.Keys == idlc.Graph().Keys;
    if linked {
      LinkableIsAcyclic(elements);
    }
    if Coherent(fs, files) {
      LinkedTogether(fs, files);
      forall f, n | f in files && n in EntriesOf(fs, f)
        ensures n in idlc.symTbl
      {
        EntryInTable(fs, files, f, n);
      }
    }
  }

  lemma LinkableIsAcyclic(elements: seq<Decl>)
    requires Linkable(elements)
    ensures Acyclic(TableOf(elements))
  {
  }
}
