/** The language server's state machine: documents are opened, edited and closed, files
    are analysed, and edits invalidate what may have become stale. */
module LanguageServer {
  import opened Common
  import opened Graphs
  import opened ReverseDeps
  import opened AnalysisCache

  /** `docs` holds the versions of the open documents, `pending` the versions last
      scheduled for analysis, `edits` how often each file's visible text has changed. */
  datatype State = State(cache: Cache, order: seq<string>, deps: Deps, docs: map<string, int>,
                         pending: map<string, int>, edits: map<string, nat>)

  /** An analysis that throws has no modules. */
  type Analysis = Option<seq<Module>>

  datatype Event =
    | Opened(path: string, version: int)
    | Changed(path: string, version: int)
    | Closed(path: string)
    | TimerFired(path: string, version: int, analysis: Analysis)
    | Requested(path: string, analysis: Analysis)
    | Indexed(graph: Deps)

  function Edits(edits: map<string, nat>, path: string): nat {
    if path in edits then edits[path] else 0
  }

  function Version(s: State, path: string): int {
    if path in s.docs then s.docs[path] else 0
  }

  function Touch(s: State, path: string): State {
    var r := Evicted(Touched(s.order, path), s.cache, s.docs.Keys);
    s.(order := r.0, cache := r.1)
  }

  /** A finished analysis is cached and replaces the edges its entry had. */
  function Cached(s: State, path: string, modules: seq<Module>): State {
    var result := AnalyzeResult(modules, s.edits);
    var touched := Touch(s.(cache := s.cache[path := result]), path);
    touched.(deps := Replaced(s.deps, modules, path))
  }

  function Invalidate(s: State, path: string): State {
    s.(cache := s.cache - ({path} + Importers(s.deps, path)))
  }

  function Edited(s: State, path: string): State {
    Invalidate(s.(edits := s.edits[path := Edits(s.edits, path) + 1]), path)
  }

  predicate Superseded(s: State, path: string, version: int) {
    version < Version(s, path) || (path in s.pending && version < s.pending[path])
  }

  function Step(s: State, e: Event): State {
    match e
    case Opened(path, version) => Edited(s.(docs := s.docs[path := version], pending := s.pending[path := version]), path)
    case Changed(path, version) => Edited(s.(docs := s.docs[path := version], pending := s.pending[path := version]), path)
    case Closed(path) => Edited(s.(docs := s.docs - {path}, pending := s.pending - {path}), path)
    case TimerFired(path, version, analysis) =>
      if Superseded(s, path, version) || analysis.None? then s else Cached(s, path, analysis.value)
    case Requested(path, analysis) =>
      if path in s.cache then Touch(s, path) else if analysis.None? then s else Cached(s, path, analysis.value)
    case Indexed(graph) => s.(deps := Merged(s.deps, graph))
  }

  const START := State(map[], [], map[], map[], map[], map[])

  function Run(s: State, es: seq<Event>): State
    decreases |es|
  {
    if es == [] then s else Run(Step(s, es[0]), es[1..])
  }

  /* ---------- The invariant ---------- */

  /** The file has not changed since the analysis read it. */
  predicate Current(s: State, r: AnalyzeResult, path: string) {
    Edits(r.seen, path) == Edits(s.edits, path)
  }

  /** The entry is listed as an importer of everything its module imports, and neither it
      nor any of those files has changed since. */
  ghost predicate UpToDate(s: State, path: string, r: AnalyzeResult) {
    Current(s, r, path)
    && forall d | Imports(r.modules, path, d) :: path in Importers(s.deps, d) && Current(s, r, d)
  }

  /** Every cached result is up to date. */
  ghost predicate Fresh(s: State) {
    forall p | p in s.cache :: UpToDate(s, p, s.cache[p])
  }

  ghost predicate Invariant(s: State) {
    Bounded(s.order, s.cache) && Fresh(s)
  }

  lemma TouchFresh(s: State, path: string)
    requires Fresh(s)
    ensures Fresh(Touch(s, path))
  {
    hide Touched, Imports, Importers;
    var next := Touch(s, path);
    forall p | p in next.cache ensures UpToDate(next, p, next.cache[p]) {
      assert p in s.cache && next.cache[p] == s.cache[p];
      assert UpToDate(s, p, s.cache[p]);
    }
  }

  lemma TouchBounded(s: State, path: string)
    requires Distinct(s.order) && |s.order| <= LIMIT && (forall p | p in s.cache :: p in s.order || p == path || p == "")
    requires Terminates(Touched(s.order, path), s.docs.Keys)
    ensures Bounded(Touch(s, path).order, Touch(s, path).cache)
  {
    hide Evicted, Touched, Terminates;
    TouchFacts(s.order, s.cache, path, s.docs.Keys);
  }

  /** The state between caching a result and touching its path. */
  function Stored(s: State, path: string, modules: seq<Module>): State {
    s.(cache := s.cache[path := AnalyzeResult(modules, s.edits)], deps := Replaced(s.deps, modules, path))
  }

  lemma StoredUpToDate(s: State, path: string, modules: seq<Module>, p: string)
    requires p in s.cache ==> UpToDate(s, p, s.cache[p])
    requires p in s.cache || p == path
    ensures UpToDate(Stored(s, path, modules), p, Stored(s, path, modules).cache[p])
  {
    hide Replaced, Imports, Importers;
    var stored := Stored(s, path, modules);
    var r := stored.cache[p];
    forall d | Imports(r.modules, p, d) ensures p in Importers(stored.deps, d) && Current(stored, r, d) {
      ReplacedEdges(s.deps, modules, path, d, p);
    }
  }

  lemma CachedFresh(s: State, path: string, modules: seq<Module>)
    requires Fresh(s)
    ensures Fresh(Cached(s, path, modules))
  {
    hide Touch, Replaced, UpToDate;
    var stored := Stored(s, path, modules);
    forall p | p in stored.cache ensures UpToDate(stored, p, stored.cache[p]) { StoredUpToDate(s, path, modules, p); }
    TouchFresh(stored, path);
    TouchIgnoresDeps(s, stored, path);
  }

  lemma CachedBounded(s: State, path: string, modules: seq<Module>)
    requires Bounded(s.order, s.cache) && Terminates(Touched(s.order, path), s.docs.Keys)
    ensures Bounded(Cached(s, path, modules).order, Cached(s, path, modules).cache)
  {
    hide Touch, Replaced, Bounded, Terminates, Touched;
    var stored := Stored(s, path, modules);
    StoredBounds(s, stored, path);
    TouchBounded(stored, path);
    TouchIgnoresDeps(s, stored, path);
  }

  lemma StoredBounds(s: State, stored: State, path: string)
    requires Bounded(s.order, s.cache) && stored.order == s.order && stored.cache.Keys == s.cache.Keys + {path}
    ensures Distinct(stored.order) && |stored.order| <= LIMIT
    ensures forall p | p in stored.cache :: p in stored.order || p == path || p == ""
  {
  }

  lemma TouchIgnoresDeps(s: State, stored: State, path: string)
    requires stored == s.(cache := stored.cache, deps := stored.deps)
    ensures Touch(stored, path) == Touch(s.(cache := stored.cache), path).(deps := stored.deps)
  {
    hide Evicted, Touched;
  }

  lemma EditedFresh(s: State, path: string)
    requires Fresh(s)
    ensures Fresh(Edited(s, path))
  {
    hide Imports;
    var next := Edited(s, path);
    forall p | p in next.cache ensures UpToDate(next, p, next.cache[p]) {
      var r := s.cache[p];
      assert UpToDate(s, p, r) && p != path && p !in Importers(s.deps, path);
    }
  }

  /** Every event keeps cached results up to date, however many documents are open. */
  lemma StepFresh(s: State, e: Event)
    requires Fresh(s)
    ensures Fresh(Step(s, e))
  {
    hide UpToDate, Fresh, Edited, Cached, Touch;
    match e
    case Opened(path, version) =>
      var s' := s.(docs := s.docs[path := version], pending := s.pending[path := version]);
      SameFacts(s, s');
      EditedFresh(s', path);
    case Changed(path, version) =>
      var s' := s.(docs := s.docs[path := version], pending := s.pending[path := version]);
      SameFacts(s, s');
      EditedFresh(s', path);
    case Closed(path) =>
      var s' := s.(docs := s.docs - {path}, pending := s.pending - {path});
      SameFacts(s, s');
      EditedFresh(s', path);
    case TimerFired(path, _, analysis) =>
      if analysis.Some? { CachedFresh(s, path, analysis.value); }
    case Requested(path, analysis) =>
      if path in s.cache {
        TouchFresh(s, path);
      } else if analysis.Some? {
        CachedFresh(s, path, analysis.value);
      }
    case Indexed(graph) => IndexedFresh(s, graph);
  }

  /** The path an event makes the most recent one. */
  function TouchedPath(s: State, e: Event): Option<string> {
    match e
    case TimerFired(path, version, analysis) =>
      if Superseded(s, path, version) || analysis.None? then None else Some(path)
    case Requested(path, analysis) => if path in s.cache || analysis.Some? then Some(path) else None
    case _ => None
  }

  /** The sweep of the event, if there is one, ends. */
  predicate Ends(s: State, e: Event) {
    TouchedPath(s, e).Some? ==> Terminates(Touched(s.order, TouchedPath(s, e).value), s.docs.Keys)
  }

  /** `Ends` is what it says: the loop over the order stops after some number of passes. */
  lemma EndsIff(s: State, e: Event, cache: Cache)
    requires Bounded(s.order, s.cache)
    ensures Ends(s, e) <==>
      (TouchedPath(s, e).Some? ==> Stops(Touched(s.order, TouchedPath(s, e).value), cache, s.docs.Keys))
  {
    hide Stops, Terminates, Touched;
    if TouchedPath(s, e).Some? {
      TouchedDistinct(s.order, TouchedPath(s, e).value);
      StopsIff(Touched(s.order, TouchedPath(s, e).value), cache, s.docs.Keys);
    }
  }

  lemma FewOpenEnds(s: State, e: Event)
    requires Bounded(s.order, s.cache) && |s.docs| <= LIMIT
    ensures Ends(s, e)
  {
    hide Touched, Terminates;
    if TouchedPath(s, e).Some? {
      TouchedDistinct(s.order, TouchedPath(s, e).value);
      assert |s.docs.Keys| == |s.docs|;
      FewOpenTerminates(Touched(s.order, TouchedPath(s, e).value), s.docs.Keys);
    }
  }

  /** An event whose sweep ends keeps the cache bounded. */
  lemma StepBounded(s: State, e: Event)
    requires Bounded(s.order, s.cache) && Ends(s, e)
    ensures Bounded(Step(s, e).order, Step(s, e).cache)
  {
    hide Cached, Touch, Terminates, Touched;
    match e
    case TimerFired(path, _, analysis) =>
      if TouchedPath(s, e).Some? { CachedBounded(s, path, analysis.value); }
    case Requested(path, analysis) =>
      if path in s.cache {
        TouchBounded(s, path);
      } else if analysis.Some? {
        CachedBounded(s, path, analysis.value);
      }
    case _ =>
  }

  lemma SameFacts(s: State, t: State)
    requires Fresh(s) && t == s.(docs := t.docs, pending := t.pending)
    ensures Fresh(t)
  {
    hide Imports;
    forall p | p in t.cache ensures UpToDate(t, p, t.cache[p]) { assert UpToDate(s, p, s.cache[p]); }
  }

  lemma IndexedFresh(s: State, graph: Deps)
    requires Fresh(s)
    ensures Fresh(Step(s, Indexed(graph)))
  {
    hide Imports, Merged;
    var next := Step(s, Indexed(graph));
    forall p | p in next.cache ensures UpToDate(next, p, next.cache[p]) {
      var r := s.cache[p];
      assert UpToDate(s, p, r);
      forall d | Imports(r.modules, p, d) ensures p in Importers(next.deps, d) && Current(next, r, d) {
        MergedEdges(s.deps, graph, d);
      }
    }
  }

  /** Whatever happens, every cached result was computed after the last edit of its entry
      file and of every file that file directly imports. */
  lemma {:induction false} RunFresh(s: State, es: seq<Event>)
    requires Fresh(s)
    ensures Fresh(Run(s, es))
    decreases |es|
  {
    hide Fresh, Step;
    if es != [] {
      StepFresh(s, es[0]);
      RunFresh(Step(s, es[0]), es[1..]);
    }
  }

  predicate EveryTouchEnds(s: State, es: seq<Event>)
    decreases |es|
  {
    es == [] || (Ends(s, es[0]) && EveryTouchEnds(Step(s, es[0]), es[1..]))
  }

  lemma {:induction false} RunBounded(s: State, es: seq<Event>)
    requires Bounded(s.order, s.cache) && EveryTouchEnds(s, es)
    ensures Bounded(Run(s, es).order, Run(s, es).cache)
    decreases |es|
  {
    hide Bounded, Step, Ends;
    if es != [] {
      StepBounded(s, es[0]);
      RunBounded(Step(s, es[0]), es[1..]);
    }
  }

  /* ---------- Re-exported files ---------- */

  /** An edit of a re-exported file leaves the cached result behind exactly when the file
      is not also listed as imported by the entry. */
  lemma ReexportStaleIff(s: State, path: string, source: string)
    requires path in s.cache && path != source && Current(s, s.cache[path], source)
    requires Reexports(s.cache[path].modules, path, source)
    ensures var next := Edited(s, source);
      path in next.cache && !Current(next, next.cache[path], source) <==> path !in Importers(s.deps, source)
  {
    hide Reexports;
  }

  /** A run that ends so: a file that only passes on another is analysed, and the other
      file is edited. */
  lemma ReexportGoesStale()
    ensures var s := Run(START, [Requested("m", Some([Module("m", [], ["f"])])), Changed("f", 1)]);
      "m" in s.cache && Reexports(s.cache["m"].modules, "m", "f") && !Current(s, s.cache["m"], "f")
  {
    var modules := [Module("m", [], ["f"])];
    var first, second := Requested("m", Some(modules)), Changed("f", 1);
    var es := [first, second];
    assert es[1..] == [second] && [second][1..] == [];
    var s := Step(START, first);
    CachedAlone(modules);
    assert Run(START, es) == Run(Step(s, second), []) == Step(s, second);
    assert modules[0] in modules;
  }

  lemma CachedAlone(modules: seq<Module>)
    requires modules == [Module("m", [], ["f"])]
    ensures var s := Step(START, Requested("m", Some(modules)));
      s.cache == map["m" := AnalyzeResult(modules, map[])] && Importers(s.deps, "f") == {} && s.edits == map[]
  {
    hide Replaced;
    assert Touched([], "m") == ["m"];
    ReplacedEdges(map[], modules, "m", "f", "m");
    assert forall m | m in modules :: m.imports == [];
    forall q ensures q !in Importers(Replaced(map[], modules, "m"), "f") {
      ReplacedEdges(map[], modules, "m", "f", q);
    }
  }

  /** At most 64 documents are open at any time. */
  predicate FewOpen(s: State, es: seq<Event>)
    decreases |es|
  {
    |s.docs| <= LIMIT && (es == [] || FewOpen(Step(s, es[0]), es[1..]))
  }

  lemma {:induction false} FewOpenTouchesEnd(s: State, es: seq<Event>)
    requires Bounded(s.order, s.cache) && FewOpen(s, es)
    ensures EveryTouchEnds(s, es)
    decreases |es|
  {
    hide Bounded, Step, Ends;
    if es != [] {
      FewOpenEnds(s, es[0]);
      StepBounded(s, es[0]);
      FewOpenTouchesEnd(Step(s, es[0]), es[1..]);
    }
  }

  /** From the start of the server: cached results are up to date after any events, and
      the cache is bounded as long as every sweep ends, as with at most 64 open documents
      each does. */
  lemma RunFromStart(es: seq<Event>)
    ensures Fresh(Run(START, es))
    ensures EveryTouchEnds(START, es) ==> Bounded(Run(START, es).order, Run(START, es).cache)
    ensures FewOpen(START, es) ==> EveryTouchEnds(START, es)
  {
    hide Run, EveryTouchEnds, FewOpen;
    RunFresh(START, es);
    if EveryTouchEnds(START, es) { RunBounded(START, es); }
    if FewOpen(START, es) { FewOpenTouchesEnd(START, es); }
  }

  lemma {:induction false} RunPending(s: State, es: seq<Event>)
    requires s.pending == s.docs
    ensures Run(s, es).pending == Run(s, es).docs
    decreases |es|
  {
    hide Evicted, Touched, Replaced, Merged, Importers;
    if es != [] { RunPending(Step(s, es[0]), es[1..]); }
  }

  /** A debounced analysis takes effect exactly when its version is not below that of the
      document: the version last scheduled is always the document's. */
  lemma TimerTakenIff(es: seq<Event>, path: string, version: int, modules: seq<Module>)
    ensures var s := Run(START, es);
      Superseded(s, path, version) <==> version < Version(s, path)
    ensures var s := Run(START, es);
      Step(s, TimerFired(path, version, Some(modules))) == if version < Version(s, path) then s else Cached(s, path, modules)
  {
    hide Run, Cached;
    RunPending(START, es);
  }

  /** An open document's cached analysis outlives analyses and uses of other files. */
  lemma OpenStaysCached(s: State, path: string, e: Event)
    requires path in s.cache && path in s.docs && (e.Requested? || e.TimerFired?) && e.path != path
    ensures path in Step(s, e).cache && Step(s, e).cache[path] == s.cache[path]
  {
    hide Touched, Replaced;
  }

  /* ---------- As it runs ---------- */

  class Server {
    var analysisCache: Cache
    var touchOrder: seq<string>
    const reverseDeps: Index
    var documents: map<string, int>
    var pendingVersion: map<string, int>
    var edits: map<string, nat>

    constructor ()
      ensures fresh(reverseDeps) && Now() == START
    {
      analysisCache, touchOrder, documents, pendingVersion, edits := map[], [], map[], map[], map[];
      reverseDeps := new Index();
    }

    function Now(): State
      reads this, reverseDeps
    {
      State(analysisCache, touchOrder, reverseDeps.deps, documents, pendingVersion, edits)
    }

    /** Makes the path the most recent one and evicts while there are too many. */
    method TouchCache(path: string)
      requires Distinct(touchOrder) && |touchOrder| <= LIMIT && Terminates(Touched(touchOrder, path), documents.Keys)
      modifies this
      ensures Now() == Touch(old(Now()), path)
    {
      TouchedDistinct(touchOrder, path);
      touchOrder := Without(touchOrder, path);
      touchOrder := touchOrder + [path];
      ghost var updated, victim := touchOrder, Victim(touchOrder, documents.Keys);
      ghost var k := 0;
      hide Distinct, Evicted;
      while |touchOrder| > LIMIT
        invariant edits == old(edits) && documents == old(documents) && pendingVersion == old(pendingVersion)
        invariant reverseDeps.deps == old(reverseDeps.deps)
        invariant k <= victim
        invariant if |touchOrder| > LIMIT then touchOrder == updated[k..] + updated[..k] && analysisCache == old(analysisCache)
                  else (touchOrder, analysisCache) == Evicted(updated, old(analysisCache), documents.Keys)
        decreases if |touchOrder| > LIMIT then victim + 1 - k else 0
      {
        ghost var s := EvictStep(touchOrder, analysisCache, documents.Keys);
        PassedIsPinned(updated, old(analysisCache), documents.Keys, k);
        var evict := touchOrder[0];
        touchOrder := touchOrder[1..];
        if evict == "" { break; }
        if evict in documents {
          touchOrder := touchOrder + [evict];
          if |touchOrder| <= LIMIT || touchOrder[0] == evict {
            // The two exits for pinned paths are dead: the order is as long as before and
            // has no duplicates.
            assert false;
          }
          k := k + 1;
          continue;
        }
        analysisCache := analysisCache - {evict};
      }
    }

    /** Caches a result made from the files as they are now. */
    method SetAnalysisCache(path: string, result: AnalyzeResult)
      requires Bounded(touchOrder, analysisCache) && Terminates(Touched(touchOrder, path), documents.Keys)
      modifies this
      ensures Now() == Touch(old(Now()).(cache := old(analysisCache)[path := result]), path)
    {
      hide Evicted, Touched, Terminates;
      analysisCache := analysisCache[path := result];
      TouchCache(path);
    }

    method InvalidateDependents(path: string)
      modifies this
      ensures Now() == Invalidate(old(Now()), path)
    {
      ghost var cache := analysisCache;
      analysisCache := analysisCache - {path};
      var importers := Importers(reverseDeps.deps, path);
      var left := importers;
      while left != {}
        invariant left <= importers && Now() == old(Now()).(cache := cache - ({path} + (importers - left)))
        decreases |left|
      {
        var importer :| importer in left;
        left := left - {importer};
        analysisCache := analysisCache - {importer};
        assert analysisCache == cache - ({path} + (importers - left));
      }
      assert importers - {} == importers;
    }

    /** The text a file shows has changed: what was derived from it is dropped. */
    method FileEdited(path: string)
      modifies this
      ensures Now() == Edited(old(Now()), path)
    {
      edits := edits[path := Edits(edits, path) + 1];
      InvalidateDependents(path);
    }

    method StoreAnalysis(path: string, modules: seq<Module>) returns (result: AnalyzeResult)
      requires Bounded(touchOrder, analysisCache) && Terminates(Touched(touchOrder, path), documents.Keys)
      modifies this, reverseDeps
      ensures Now() == Cached(old(Now()), path, modules) && result == AnalyzeResult(modules, edits)
    {
      hide Touch, Replaced, Bounded;
      result := AnalyzeResult(modules, edits);
      SetAnalysisCache(path, result);
      TouchKeepsRest(old(Now()).(cache := old(analysisCache)[path := result]), path);
      reverseDeps.ReplaceForResult(result, path);
    }

    method ScheduleAnalyze(path: string)
      modifies this`pendingVersion
      ensures pendingVersion == old(pendingVersion)[path := Version(Now(), path)]
    {
      pendingVersion := pendingVersion[path := if path in documents then documents[path] else 0];
    }

    method OnDidOpen(path: string, version: int)
      modifies this
      ensures Now() == Step(old(Now()), Opened(path, version))
    {
      documents := documents[path := version];
      FileEdited(path);
      ScheduleAnalyze(path);
    }

    method OnDidChangeContent(path: string, version: int)
      modifies this
      ensures Now() == Step(old(Now()), Changed(path, version))
    {
      documents := documents[path := version];
      FileEdited(path);
      ScheduleAnalyze(path);
    }

    method OnDidClose(path: string)
      modifies this
      ensures Now() == Step(old(Now()), Closed(path))
    {
      documents := documents - {path};
      FileEdited(path);
      pendingVersion := pendingVersion - {path};
    }

    /** The debounced analysis; a superseded version does nothing. */
    method RunAnalyze(path: string, version: int, analysis: Analysis)
      requires Bounded(touchOrder, analysisCache) && Ends(Now(), TimerFired(path, version, analysis))
      modifies this, reverseDeps
      ensures Now() == Step(old(Now()), TimerFired(path, version, analysis))
    {
      hide Cached, Bounded, Terminates, Touched;
      var current := if path in documents then documents[path] else 0;
      if version < current { return; }
      if path in pendingVersion && version < pendingVersion[path] { return; }
      if analysis.None? { return; }
      var result := StoreAnalysis(path, analysis.value);
    }

    method EnsureAnalyzed(path: string, analysis: Analysis) returns (result: Option<AnalyzeResult>)
      requires Bounded(touchOrder, analysisCache) && Ends(Now(), Requested(path, analysis))
      modifies this, reverseDeps
      ensures Now() == Step(old(Now()), Requested(path, analysis))
      ensures path in old(analysisCache) ==> result == Some(old(analysisCache)[path])
      ensures path !in old(analysisCache) ==>
          result == if analysis.Some? then Some(AnalyzeResult(analysis.value, edits)) else None
    {
      hide Cached, Touch, Evicted, Touched, Terminates;
      if path in analysisCache {
        result := Some(analysisCache[path]);
        TouchCache(path);
        return;
      }
      if analysis.None? { return None; }
      var stored := StoreAnalysis(path, analysis.value);
      return Some(stored);
    }

    method AddWorkspaceGraph(graph: Deps)
      modifies reverseDeps
      ensures Now() == Step(old(Now()), Indexed(graph))
    {
      reverseDeps.Merge(graph);
    }

    /** Any one event whose sweep ends: the handler ends too and keeps the invariant. */
    method Handle(e: Event)
      requires Invariant(Now()) && Ends(Now(), e)
      modifies this, reverseDeps
      ensures Now() == Step(old(Now()), e) && Invariant(Now())
    {
      hide Step, Fresh, Bounded, Ends;
      StepFresh(Now(), e);
      StepBounded(Now(), e);
      match e
      case Opened(path, version) => OnDidOpen(path, version);
      case Changed(path, version) => OnDidChangeContent(path, version);
      case Closed(path) => OnDidClose(path);
      case TimerFired(path, version, analysis) => RunAnalyze(path, version, analysis);
      case Requested(path, analysis) => var _ := EnsureAnalyzed(path, analysis);
      case Indexed(graph) => AddWorkspaceGraph(graph);
    }
  }

  lemma TouchKeepsRest(s: State, path: string)
    ensures var t := Touch(s, path);
      t.deps == s.deps && t.docs == s.docs && t.pending == s.pending && t.edits == s.edits
  {
    hide Evicted, Touched;
  }

  /** One pass of the sweep when `k` pinned paths have been passed. */
  lemma PassedIsPinned(updated: seq<string>, cache: Cache, open: set<string>, k: nat)
    requires Distinct(updated) && |updated| == LIMIT + 1 && k <= Victim(updated, open) < |updated|
    ensures var s := EvictStep(updated[k..] + updated[..k], cache, open);
      if k < Victim(updated, open) then s == Sweep(updated[k + 1..] + updated[..k + 1], cache, false)
      else Ended(s) && (s.order, s.cache) == Evicted(updated, cache, open)
  {
    var now := updated[k..] + updated[..k];
    assert now[0] == updated[k] && now[1..] == updated[k + 1..] + updated[..k];
    if k < Victim(updated, open) {
      assert now[1..] + [now[0]] == updated[k + 1..] + updated[..k + 1];
      assert (updated[k + 1..] + updated[..k + 1])[0] == updated[k + 1] != updated[k];
    }
  }
}
