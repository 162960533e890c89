/** The reverse-dependency index: which files import a file, as analyses report it. */
module ReverseDeps {

  datatype Module = Module(path: string, imports: seq<string>, reexportSources: seq<string>)

  /** An analysis: the modules it loaded, and for each file how often it had been edited
      when its text was read. */
  datatype AnalyzeResult = AnalyzeResult(modules: seq<Module>, seen: map<string, nat>)

  type Deps = map<string, set<string>>

  function Importers(deps: Deps, imported: string): set<string> {
    if imported in deps then deps[imported] else {}
  }

  predicate Imports(modules: seq<Module>, importer: string, imported: string) {
    exists m | m in modules :: m.path == importer && imported in m.imports
  }

  /** The module passes on what another file exports; the index does not record this. */
  predicate Reexports(modules: seq<Module>, importer: string, source: string) {
    exists m | m in modules :: m.path == importer && source in m.reexportSources
  }

  function ImportersIn(modules: seq<Module>, imported: string): (r: set<string>)
    ensures forall q :: q in r <==> Imports(modules, q, imported)
  {
    set m | m in modules && imported in m.imports :: m.path
  }

  function ImportedIn(modules: seq<Module>): (r: set<string>)
    ensures forall d :: d in r <==> exists m | m in modules :: d in m.imports
  {
    set m, d | m in modules && d in m.imports :: d
  }

  /** The importers of a file once the entry's edges have been replaced. */
  function NewImporters(deps: Deps, modules: seq<Module>, entry: string, imported: string): set<string> {
    (Importers(deps, imported) - {entry}) + ImportersIn(modules, imported)
  }

  function Replaced(deps: Deps, modules: seq<Module>, entry: string): Deps {
    map d | d in deps.Keys + ImportedIn(modules) && NewImporters(deps, modules, entry, d) != {} ::
      NewImporters(deps, modules, entry, d)
  }

  function Merged(deps: Deps, more: Deps): Deps {
    map d | d in deps.Keys + more.Keys :: Importers(deps, d) + Importers(more, d)
  }

  /** Replacing makes the entry's own edges exact, keeps all edges of other importers and
      adds those the analysis saw, and leaves no empty set. */
  lemma ReplacedEdges(deps: Deps, modules: seq<Module>, entry: string, imported: string, importer: string)
    ensures importer in Importers(Replaced(deps, modules, entry), imported) <==>
      Imports(modules, importer, imported) || (importer != entry && importer in Importers(deps, imported))
    ensures imported in Replaced(deps, modules, entry) ==> Replaced(deps, modules, entry)[imported] != {}
  {
    if Imports(modules, importer, imported) {
      var m :| m in modules && m.path == importer && imported in m.imports;
      assert imported in ImportedIn(modules);
    }
  }

  lemma MergedEdges(deps: Deps, more: Deps, imported: string)
    ensures Importers(Merged(deps, more), imported) == Importers(deps, imported) + Importers(more, imported)
  {
  }

  function Part(deps: Deps, keys: set<string>): Deps {
    map d | d in deps && d in keys :: deps[d]
  }

  lemma PartOfAll(deps: Deps)
    ensures Part(deps, deps.Keys) == deps
  {
  }

  lemma MergeNothing(deps: Deps, more: Deps)
    ensures Merged(deps, Part(more, more.Keys - more.Keys)) == deps
  {
    var none := Part(more, more.Keys - more.Keys);
    assert none.Keys == {};
    forall d | d in deps ensures Merged(deps, none)[d] == deps[d] { MergedEdges(deps, none, d); }
  }

  lemma MergedKeys(deps: Deps, more: Deps)
    ensures Merged(deps, more).Keys == deps.Keys + more.Keys
  {
  }

  lemma MergeOne(deps: Deps, more: Deps, done: set<string>, d: string)
    requires d in more && d !in done
    ensures var before := Merged(deps, Part(more, done));
      Merged(deps, Part(more, done + {d})) == before[d := Importers(before, d) + more[d]]
  {
    var before, after := Part(more, done), Part(more, done + {d});
    assert after.Keys == before.Keys + {d} && d !in before;
    MergedKeys(deps, before);
    MergedKeys(deps, after);
    hide Merged, Part, Importers;
    var a, b := Merged(deps, after), Merged(deps, before)[d := Importers(Merged(deps, before), d) + more[d]];
    forall k | k in a ensures a[k] == b[k] {
      MergedEdges(deps, before, k);
      MergedEdges(deps, after, k);
      PartAt(more, done, d, k);
      ImportersAt(a, k);
      if k != d { ImportersAt(Merged(deps, before), k); }
    }
  }

  lemma ImportersAt(deps: Deps, k: string)
    requires k in deps
    ensures Importers(deps, k) == deps[k]
  {
  }

  lemma PartAt(more: Deps, done: set<string>, d: string, k: string)
    requires d in more && d !in done
    ensures Importers(Part(more, done + {d}), k) == if k == d then more[d] else Importers(Part(more, done), k)
    ensures d !in Part(more, done)
  {
  }

  function NonEmpty(deps: Deps): Deps {
    map d | d in deps && deps[d] != {} :: deps[d]
  }

  lemma ReplacedInSteps(start: Deps, removed: Deps, collected: Deps, modules: seq<Module>, entry: string)
    requires removed.Keys == start.Keys && forall d :: Importers(removed, d) == Importers(start, d) - {entry}
    requires collected.Keys == ImportedIn(modules) && forall d :: Importers(collected, d) == ImportersIn(modules, d)
    ensures NonEmpty(Merged(removed, collected)) == Replaced(start, modules, entry)
  {
    hide ImportersIn, ImportedIn, Merged, NewImporters;
    var all := Merged(removed, collected);
    MergedKeys(removed, collected);
    forall d | d in all ensures all[d] == NewImporters(start, modules, entry, d) {
      MergedEdges(removed, collected, d);
      NewAre(start, removed, modules, entry, d);
    }
    assert NonEmpty(all).Keys == Replaced(start, modules, entry).Keys;
  }

  lemma NewAre(start: Deps, removed: Deps, modules: seq<Module>, entry: string, d: string)
    requires Importers(removed, d) == Importers(start, d) - {entry}
    ensures NewImporters(start, modules, entry, d) == Importers(removed, d) + ImportersIn(modules, d)
  {
  }

  /* ---------- As it runs ---------- */

  /** The edges of one analysis. */
  method CollectReverseDeps(modules: seq<Module>) returns (reverse: Deps)
    ensures reverse.Keys == ImportedIn(modules) && forall d :: Importers(reverse, d) == ImportersIn(modules, d)
  {
    reverse := map[];
    for i := 0 to |modules|
      invariant reverse.Keys == ImportedIn(modules[..i])
      invariant forall d :: Importers(reverse, d) == ImportersIn(modules[..i], d)
    {
      reverse := AddModule(modules[..i], modules[i], reverse);
      assert modules[..i] + [modules[i]] == modules[..i + 1];
    }
    assert modules[..|modules|] == modules;
  }

  method AddModule(ghost before: seq<Module>, m: Module, start: Deps) returns (reverse: Deps)
    requires start.Keys == ImportedIn(before) && forall d :: Importers(start, d) == ImportersIn(before, d)
    ensures reverse.Keys == ImportedIn(before + [m])
    ensures forall d :: Importers(reverse, d) == ImportersIn(before + [m], d)
  {
    hide ImportedIn, ImportersIn, Importers;
    reverse := start;
    for j := 0 to |m.imports|
      invariant WithEdges(reverse, m.path, m.imports[j..]) == WithEdges(start, m.path, m.imports)
    {
      var d := m.imports[j];
      assert m.imports[j..][0] == d && m.imports[j..][1..] == m.imports[j + 1..];
      reverse := reverse[d := Importers(reverse, d) + {m.path}];
    }
    WithEdgesFacts(start, m.path, m.imports);
    OneMoreModule(before, m);
  }

  function WithEdges(deps: Deps, importer: string, imports: seq<string>): Deps
    decreases |imports|
  {
    if imports == [] then deps
    else WithEdges(deps[imports[0] := Importers(deps, imports[0]) + {importer}], importer, imports[1..])
  }

  lemma {:induction false} WithEdgesFacts(deps: Deps, importer: string, imports: seq<string>)
    ensures WithEdges(deps, importer, imports).Keys == deps.Keys + (set d | d in imports)
    ensures forall d :: Importers(WithEdges(deps, importer, imports), d)
                     == Importers(deps, d) + (if d in imports then {importer} else {})
    decreases |imports|
  {
    if imports != [] {
      var next := deps[imports[0] := Importers(deps, imports[0]) + {importer}];
      WithEdgesFacts(next, importer, imports[1..]);
      assert forall d :: d in imports <==> d == imports[0] || d in imports[1..];
    }
  }

  lemma OneMoreModule(before: seq<Module>, m: Module)
    ensures ImportedIn(before + [m]) == ImportedIn(before) + (set d | d in m.imports)
    ensures forall d :: ImportersIn(before + [m], d) == ImportersIn(before, d) + (if d in m.imports then {m.path} else {})
  {
    var all := before + [m];
    assert forall x :: x in all <==> x in before || x == m;
    forall d ensures ImportersIn(all, d) == ImportersIn(before, d) + (if d in m.imports then {m.path} else {}) {
      forall q ensures q in ImportersIn(all, d) <==> q in ImportersIn(before, d) || (d in m.imports && q == m.path) {
        if q in ImportersIn(before, d) {
          var x :| x in before && x.path == q && d in x.imports;
          assert x in all;
        }
        if d in m.imports && q == m.path { assert m in all; }
      }
    }
    forall d ensures d in ImportedIn(all) <==> d in ImportedIn(before) || d in m.imports {
      if d in ImportedIn(before) {
        var x :| x in before && d in x.imports;
        assert x in all;
      }
      if d in m.imports { assert m in all; }
    }
  }

  class Index {
    var deps: Deps

    constructor ()
      ensures deps == map[]
    {
      deps := map[];
    }

    /** Takes the entry out of every set. */
    method RemoveImporter(entry: string)
      modifies this
      ensures deps.Keys == old(deps).Keys && forall d :: Importers(deps, d) == Importers(old(deps), d) - {entry}
    {
      var left := deps.Keys;
      while left != {}
        invariant left <= deps.Keys == old(deps).Keys
        invariant forall d | d in deps :: deps[d] == if d in left then old(deps)[d] else old(deps)[d] - {entry}
        decreases |left|
      {
        var d :| d in left;
        left := left - {d};
        deps := deps[d := deps[d] - {entry}];
      }
    }

    /** Adds edges, and nothing else. */
    method Merge(more: Deps)
      modifies this
      ensures deps == Merged(old(deps), more)
    {
      hide Merged, Part;
      ghost var start := deps;
      var left := more.Keys;
      MergeNothing(start, more);
      while left != {}
        invariant left <= more.Keys && deps == Merged(start, Part(more, more.Keys - left))
        decreases |left|
      {
        var d :| d in left;
        MergeOne(start, more, more.Keys - left, d);
        assert more.Keys - (left - {d}) == (more.Keys - left) + {d};
        left := left - {d};
        deps := deps[d := Importers(deps, d) + more[d]];
      }
      PartOfAll(more);
      assert more.Keys - {} == more.Keys;
    }

    method DropEmpty()
      modifies this
      ensures deps == NonEmpty(old(deps))
    {
      var left := deps.Keys;
      while left != {}
        invariant left <= deps.Keys <= old(deps).Keys
        invariant forall d | d in old(deps) :: d in deps <==> d in left || old(deps)[d] != {}
        invariant forall d | d in deps :: deps[d] == old(deps)[d]
        decreases |left|
      {
        var d :| d in left;
        left := left - {d};
        if deps[d] == {} { deps := deps - {d}; }
      }
    }

    method ReplaceForResult(result: AnalyzeResult, entry: string)
      modifies this
      ensures deps == Replaced(old(deps), result.modules, entry)
    {
      hide Merged, Importers, NewImporters, ImportersIn, ImportedIn, Replaced;
      ghost var start := deps;
      RemoveImporter(entry);
      ghost var removed := deps;
      var collected := CollectReverseDeps(result.modules);
      Merge(collected);
      DropEmpty();
      ReplacedInSteps(start, removed, collected, result.modules, entry);
    }
  }
}
