/** The order in which modules are collected: imported modules before importers. */
module ModuleOrder {
  import opened Graphs

  datatype Module = Module(path: string, imports: seq<string>, reexportSources: seq<string>)

  /** The last module with a path stands for it. */
  function ByPath(modules: seq<Module>): (r: map<string, Module>)
    ensures forall p :: p in r <==> exists i | 0 <= i < |modules| :: modules[i].path == p
    ensures forall p | p in r :: r[p].path == p && r[p] in modules
  {
    if modules == [] then map[]
    else
      var last := modules[|modules| - 1];
      var before := ByPath(modules[..|modules| - 1]);
      before[last.path := last]
  }

  /** Of the modules with one path, the last stands for it. */
  lemma {:induction false} LastStands(modules: seq<Module>, i: nat)
    requires i < |modules| && forall j | i < j < |modules| :: modules[j].path != modules[i].path
    ensures modules[i].path in ByPath(modules) && ByPath(modules)[modules[i].path] == modules[i]
    decreases |modules|
  {
    if i < |modules| - 1 {
      var front := modules[..|modules| - 1];
      assert forall j | i < j < |front| :: front[j] == modules[j];
      LastStands(front, i);
    }
  }

  function ImportGraph(byPath: map<string, Module>): Graph {
    map p | p in byPath :: byPath[p].imports + byPath[p].reexportSources
  }

  function Paths(ms: seq<Module>): (r: seq<string>)
    ensures |r| == |ms| && forall i | 0 <= i < |ms| :: r[i] == ms[i].path
  {
    seq(|ms|, i requires 0 <= i < |ms| => ms[i].path)
  }

  /** White, grey and black nodes, and a finishing order of the black ones. */
  ghost predicate Colours(byPath: map<string, Module>, visiting: set<string>, done: set<string>, ordered: seq<Module>) {
    done <= byPath.Keys && visiting <= byPath.Keys && visiting !! done
    && Distinct(Paths(ordered)) && (forall p :: p in Paths(ordered) <==> p in done)
    && (forall i | 0 <= i < |ordered| :: ordered[i].path in byPath && ordered[i] == byPath[ordered[i].path])
    && Finishing(ImportGraph(byPath), Paths(ordered))
  }

  lemma Blacken(byPath: map<string, Module>, visiting: set<string>, done: set<string>, ordered: seq<Module>, path: string)
    requires Colours(byPath, visiting, done, ordered) && path in visiting && byPath[path].path == path
    requires forall v | Edge(ImportGraph(byPath), path, v) :: v in done || Reaches(ImportGraph(byPath), v, path)
    ensures Colours(byPath, visiting - {path}, done + {path}, ordered + [byPath[path]])
  {
    hide Reaches, Finishing;
    var next := ordered + [byPath[path]];
    assert Paths(next) == Paths(ordered) + [path];
    FinishLast(ImportGraph(byPath), Paths(ordered), path);
    forall p ensures p in Paths(next) <==> p in done + {path} {
      if p == path { assert Paths(next)[|ordered|] == p; }
    }
  }

  class Visitor {
    const byPath: map<string, Module>
    var visiting: set<string>
    var done: set<string>
    var ordered: seq<Module>

    constructor (modules: seq<Module>)
      ensures byPath == ByPath(modules) && visiting == {} && ordered == [] && Valid()
    {
      byPath := ByPath(modules);
      visiting, done, ordered := {}, {}, [];
    }

    ghost predicate Valid()
      reads this
    {
      Colours(byPath, visiting, done, ordered) && forall p | p in byPath :: byPath[p].path == p
    }

    /** Every node on the way down reaches this one. */
    ghost predicate AllReach(path: string)
      reads this
    {
      path in byPath ==> forall a | a in visiting :: Reaches(ImportGraph(byPath), a, path)
    }

    method Visit(path: string)
      requires Valid() && AllReach(path)
      modifies this
      ensures Valid() && visiting == old(visiting) && old(done) <= done
      ensures path in byPath ==> path in done || path in visiting
      decreases byPath.Keys - visiting - done, 0
    {
      if path in done || path !in byPath || path in visiting { return; }
      hide Finishing, Reaches, Distinct;
      ghost var unvisited := byPath.Keys - visiting - done;
      visiting := visiting + {path};
      assert byPath.Keys - visiting - done == unvisited - {path} && path in unvisited;
      var m := byPath[path];
      ReachesSelf(ImportGraph(byPath), path);
      VisitAll(path, m.imports);
      VisitAll(path, m.reexportSources);
      Blacken(byPath, visiting, done, ordered, path);
      visiting := visiting - {path};
      done := done + {path};
      ordered := ordered + [m];
    }

    method VisitAll(path: string, targets: seq<string>)
      requires Valid() && path in visiting && AllReach(path)
      requires forall t | t in targets :: t in ImportGraph(byPath)[path]
      modifies this
      ensures Valid() && visiting == old(visiting) && old(done) <= done
      ensures forall t | t in targets && t in byPath :: t in done || t in visiting
      decreases byPath.Keys - visiting - done, 1
    {
      hide Finishing, Reaches, Distinct;
      for i := 0 to |targets|
        invariant Valid() && visiting == old(visiting) && old(done) <= done
        invariant forall k | 0 <= k < i && targets[k] in byPath :: targets[k] in done || targets[k] in visiting
      {
        if targets[i] in byPath {
          forall a | a in visiting ensures Reaches(ImportGraph(byPath), a, targets[i]) {
            ReachesThenEdge(ImportGraph(byPath), a, path, targets[i]);
          }
        }
        Visit(targets[i]);
      }
    }
  }

  /** Each module once, and in a finishing order of the import graph. */
  method ModulesInDependencyOrder(modules: seq<Module>) returns (ordered: seq<Module>)
    ensures Enumerates(ImportGraph(ByPath(modules)), Paths(ordered))
    ensures forall m | m in ordered :: m.path in ByPath(modules) && m == ByPath(modules)[m.path]
    ensures Finishing(ImportGraph(ByPath(modules)), Paths(ordered))
  {
    var visitor := new Visitor(modules);
    hide Finishing, Reaches, ByPath, Distinct;
    for i := 0 to |modules|
      invariant visitor.Valid() && visitor.visiting == {} && fresh(visitor)
      invariant forall k | 0 <= k < i :: modules[k].path in visitor.byPath ==> modules[k].path in visitor.done
    {
      visitor.Visit(modules[i].path);
    }
    ordered := visitor.ordered;
  }

  /** An imported module placed after its importer can itself reach that importer; so
      the order is topological exactly when no module imports itself around a cycle. */
  lemma OrderIsTopologicalIff(modules: seq<Module>, ordered: seq<Module>)
    requires Enumerates(ImportGraph(ByPath(modules)), Paths(ordered))
    requires Finishing(ImportGraph(ByPath(modules)), Paths(ordered))
    ensures Topological(ImportGraph(ByPath(modules)), Paths(ordered)) <==> Acyclic(ImportGraph(ByPath(modules)))
  {
    FinishingTopologicalIff(ImportGraph(ByPath(modules)), Paths(ordered));
  }
}
