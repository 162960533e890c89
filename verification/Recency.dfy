/** Which results the language server keeps: the order of the cache is the order of last
    use, and nothing more recently used is evicted while something less recent stays. */
module Recency {
  import opened Common
  import opened Graphs
  import opened ReverseDeps
  import opened AnalysisCache
  import opened LanguageServer

  /* ---------- Uses ---------- */

  /** The event hands out the cached result of the file, or stores a new one. */
  predicate Uses(s: State, e: Event, path: string) {
    match e
    case TimerFired(p, version, analysis) => p == path && analysis.Some? && !Superseded(s, p, version)
    case Requested(p, analysis) => p == path && (p in s.cache || analysis.Some?)
    case _ => false
  }

  /** The number of the last event that used the file, 0 if none did. */
  function LastUse(es: seq<Event>, path: string): (n: nat)
    ensures n <= |es|
    decreases |es|
  {
    if es == [] then 0
    else
      var front := es[..|es| - 1];
      if Uses(Run(START, front), es[|es| - 1], path) then |es| else LastUse(front, path)
  }

  lemma {:induction false} RunAppend(s: State, es: seq<Event>, e: Event)
    ensures Run(s, es + [e]) == Step(Run(s, es), e)
    decreases |es|
  {
    hide Step;
    if es == [] {
      assert [e][1..] == [];
    } else {
      assert (es + [e])[0] == es[0] && (es + [e])[1..] == es[1..] + [e];
      RunAppend(Step(s, es[0]), es[1..], e);
    }
  }

  lemma LastUseAppend(es: seq<Event>, e: Event, path: string)
    ensures LastUse(es + [e], path) == if Uses(Run(START, es), e, path) then |es| + 1 else LastUse(es, path)
  {
    assert (es + [e])[..|es|] == es;
  }

  /* ---------- The order of the cache ---------- */

  predicate Before(order: seq<string>, p: string, q: string) {
    exists i, j | 0 <= i < j < |order| :: order[i] == p && order[j] == q
  }

  /** The file has a cached result and is not open. */
  predicate Closed(s: State, path: string) {
    path in s.cache && path !in s.docs && path != ""
  }

  /** The closed files with results stand in the order of their last uses. */
  ghost predicate Ranked(s: State, es: seq<Event>) {
    forall p, q | Before(s.order, p, q) && Closed(s, p) && Closed(s, q) :: LastUse(es, p) < LastUse(es, q)
  }

  ghost predicate Tracked(s: State) {
    Distinct(s.order) && forall p | p in s.cache :: p in s.order || p == ""
  }

  lemma BeforeSplice(before: seq<string>, path: string, after: seq<string>, p: string, q: string)
    requires Before(before + after, p, q)
    ensures Before(before + [path] + after, p, q)
  {
    var r, order, m := before + after, before + [path] + after, |before|;
    var i, j :| 0 <= i < j < |r| && r[i] == p && r[j] == q;
    var a, b := if i < m then i else i + 1, if j < m then j else j + 1;
    assert order[a] == p && order[b] == q;
  }

  lemma BeforeIn(order: seq<string>, p: string, q: string)
    requires Before(order, p, q)
    ensures p in order && q in order
  {
  }

  lemma BeforeWithout(order: seq<string>, path: string, p: string, q: string)
    requires Distinct(order) && Before(Without(order, path), p, q)
    ensures Before(order, p, q) && p != path && q != path
  {
    hide Before, Without, Distinct;
    WithoutDistinct(order, path);
    BeforeIn(Without(order, path), p, q);
    if path in order {
      var m := WithoutAt(order, path);
      assert order == order[..m] + [path] + order[m + 1..];
      BeforeSplice(order[..m], path, order[m + 1..], p, q);
    } else {
      WithoutAbsent(order, path);
    }
  }

  lemma WithoutAt(order: seq<string>, path: string) returns (m: nat)
    requires Distinct(order) && path in order
    ensures m < |order| && order[m] == path && Without(order, path) == order[..m] + order[m + 1..]
  {
    m :| 0 <= m < |order| && order[m] == path;
    assert order == order[..m] + [path] + order[m + 1..];
    WithoutSplice(order[..m], path, order[m + 1..]);
  }

  lemma BeforeTouched(order: seq<string>, path: string, p: string, q: string)
    requires Distinct(order) && Before(Touched(order, path), p, q)
    ensures p != path && (q != path ==> Before(order, p, q))
  {
    var r := Without(order, path);
    WithoutDistinct(order, path);
    var i, j :| 0 <= i < j < |Touched(order, path)| && Touched(order, path)[i] == p && Touched(order, path)[j] == q;
    assert r[i] == p && r[i] in r;
    if j < |r| {
      assert Before(r, p, q);
      BeforeWithout(order, path, p, q);
    }
  }

  /** A sweep moves only open files. */
  lemma BeforeEvicted(order: seq<string>, cache: Cache, open: set<string>, p: string, q: string)
    requires Before(Evicted(order, cache, open).0, p, q) && p !in open && q !in open
    ensures Before(order, p, q)
  {
    var i, r := Victim(order, open), Evicted(order, cache, open).0;
    var a, b :| 0 <= a < b < |r| && r[a] == p && r[b] == q;
    if r != order {
      var n := |order| - i - 1;
      assert forall k | n <= k < |r| :: r[k] == order[k - n] && !Evictable(order[k - n], open);
      assert order[i + 1 + a] == p && order[i + 1 + b] == q;
    }
  }

  /** What is evicted stands before every closed file that stays. */
  lemma EvictedFirst(order: seq<string>, cache: Cache, open: set<string>, p: string, q: string)
    requires Distinct(order) && p in cache && p !in Evicted(order, cache, open).1
    requires q in Evicted(order, cache, open).1 && q !in open && q in order && q != ""
    ensures p !in open && p != "" && Before(order, p, q)
  {
    var i := Victim(order, open);
    assert p == order[i] && q != p;
    var j :| 0 <= j < |order| && order[j] == q;
    assert forall k | 0 <= k < i :: !Evictable(order[k], open);
  }

  lemma EvictedTracked(order: seq<string>, cache: Cache, open: set<string>)
    requires Distinct(order) && forall p | p in cache :: p in order || p == ""
    ensures var r := Evicted(order, cache, open); Distinct(r.0) && forall p | p in r.1 :: p in r.0 || p == ""
  {
    hide Distinct;
    var i := Victim(order, open);
    if i < |order| { RotationKeeps(order, i); }
  }

  lemma TouchTracked(s: State, path: string)
    requires Distinct(s.order) && forall p | p in s.cache :: p in s.order || p == path || p == ""
    ensures Tracked(Touch(s, path))
  {
    TouchedDistinct(s.order, path);
    var order := Touched(s.order, path);
    hide Touched, Distinct;
    EvictedTracked(order, s.cache, s.docs.Keys);
  }

  /** Touching ranks the file last and leaves the others as they were. */
  lemma TouchRanked(s: State, path: string, p: string, q: string)
    requires Distinct(s.order) && Before(Touch(s, path).order, p, q)
    requires Closed(Touch(s, path), p) && Closed(Touch(s, path), q)
    ensures p != path && (q != path ==> Before(s.order, p, q)) && p in s.cache && q in s.cache
  {
    hide Touched, Distinct;
    TouchedDistinct(s.order, path);
    BeforeEvicted(Touched(s.order, path), s.cache, s.docs.Keys, p, q);
    BeforeTouched(s.order, path, p, q);
  }

  lemma StepTracked(s: State, e: Event)
    requires Tracked(s)
    ensures Tracked(Step(s, e))
  {
    hide Touch, Replaced, Merged, Importers, Distinct;
    match e
    case TimerFired(path, _, analysis) =>
      if analysis.Some? { CachedTracked(s, path, analysis.value); }
    case Requested(path, analysis) =>
      if path in s.cache {
        TouchTracked(s, path);
      } else if analysis.Some? {
        CachedTracked(s, path, analysis.value);
      }
    case _ =>
  }

  lemma CachedTracked(s: State, path: string, modules: seq<Module>)
    requires Tracked(s)
    ensures Tracked(Cached(s, path, modules))
  {
    hide Touch, Replaced, Distinct;
    TouchTracked(s.(cache := s.cache[path := AnalyzeResult(modules, s.edits)]), path);
  }

  /** The state an event touches, before the touch. */
  function Entered(s: State, e: Event): State {
    if (e.TimerFired? || e.Requested?) && e.analysis.Some? && (e.Requested? ==> e.path !in s.cache)
    then s.(cache := s.cache[e.path := AnalyzeResult(e.analysis.value, s.edits)]) else s
  }

  lemma UseIsTouch(s: State, e: Event, path: string)
    requires Uses(s, e, path)
    ensures e.path == path && (e.TimerFired? || e.Requested?)
    ensures var t := Touch(Entered(s, e), path); Step(s, e).order == t.order && Step(s, e).cache == t.cache
    ensures Step(s, e).docs == s.docs
  {
    hide Evicted, Touched, Replaced;
  }

  /** An event that uses no file moves none, and closes none that keeps its result. */
  lemma IdleStep(s: State, e: Event)
    requires forall path :: !Uses(s, e, path)
    ensures Step(s, e).order == s.order
    ensures forall p | Closed(Step(s, e), p) :: Closed(s, p)
  {
    hide Touch, Replaced, Merged, Importers;
    if e.TimerFired? || e.Requested? { assert !Uses(s, e, e.path); }
  }

  /** In every reachable state the closed files with results stand in the order of their
      last uses. */
  lemma {:induction false} RunRanked(es: seq<Event>)
    ensures Tracked(Run(START, es)) && Ranked(Run(START, es), es)
    decreases |es|
  {
    if es != [] {
      hide Run, Step, LastUse, Touched, Evicted, Distinct, Before;
      var front, e := es[..|es| - 1], es[|es| - 1];
      assert es == front + [e];
      var s := Run(START, front);
      RunAppend(START, front, e);
      RunRanked(front);
      StepTracked(s, e);
      var t := Step(s, e);
      forall p, q | Before(t.order, p, q) && Closed(t, p) && Closed(t, q) ensures LastUse(es, p) < LastUse(es, q) {
        StepRanked(front, e, p, q);
      }
    } else {
      assert START.order == [];
    }
  }

  lemma StepRanked(es: seq<Event>, e: Event, p: string, q: string)
    requires var s, t := Run(START, es), Step(Run(START, es), e);
      Tracked(s) && Ranked(s, es) && Before(t.order, p, q) && Closed(t, p) && Closed(t, q)
    ensures LastUse(es + [e], p) < LastUse(es + [e], q)
  {
    hide Run, LastUse, Step, Evicted, Touched, Touch, Distinct, Before, Superseded;
    var s := Run(START, es);
    LastUseAppend(es, e, p);
    LastUseAppend(es, e, q);
    if path :| Uses(s, e, path) {
      UseIsTouch(s, e, path);
      TouchDocs(Entered(s, e), path);
      TouchRanked(Entered(s, e), path, p, q);
    } else {
      IdleStep(s, e);
    }
  }

  lemma TouchDocs(s: State, path: string)
    ensures Touch(s, path).docs == s.docs
  {
    hide Evicted, Touched;
  }

  /** So no event evicts a file's result while that of a closed file stays that was used
      less recently. */
  lemma LeastRecentIsEvicted(es: seq<Event>, e: Event, p: string, q: string)
    requires e.TimerFired? || e.Requested?
    requires var s, t := Run(START, es), Step(Run(START, es), e);
      p in s.cache && p !in t.cache && Closed(t, q)
    ensures p !in Run(START, es).docs && LastUse(es + [e], p) < LastUse(es + [e], q)
  {
    hide Run, LastUse, Step, Evicted, Touched, Touch, Distinct, Before, Superseded;
    var s, t := Run(START, es), Step(Run(START, es), e);
    RunRanked(es);
    LastUseAppend(es, e, p);
    LastUseAppend(es, e, q);
    if path :| Uses(s, e, path) {
      UseIsTouch(s, e, path);
      TouchDocs(Entered(s, e), path);
      TouchEvicts(Entered(s, e), path, p, q);
    } else {
      UnusedKeeps(s, e);
    }
  }

  lemma UnusedKeeps(s: State, e: Event)
    requires (e.TimerFired? || e.Requested?) && !Uses(s, e, e.path)
    ensures Step(s, e) == s
  {
    hide Touch, Replaced;
  }

  lemma TouchEvicts(s: State, path: string, p: string, q: string)
    requires Distinct(s.order) && forall n | n in s.cache :: n in s.order || n == path || n == ""
    requires p in s.cache && p !in Touch(s, path).cache && Closed(Touch(s, path), q)
    ensures p !in s.docs && p != "" && q in s.cache && q !in s.docs && p != path && (q != path ==> Before(s.order, p, q))
  {
    hide Touched, Distinct;
    TouchedDistinct(s.order, path);
    var order := Touched(s.order, path);
    EvictedFirst(order, s.cache, s.docs.Keys, p, q);
    BeforeTouched(s.order, path, p, q);
  }

  /* ---------- What is kept ---------- */

  /** A used file has its result in the cache afterwards, unless it is not open itself and
      64 other paths in the order all are. */
  lemma UsedIsKeptIff(s: State, e: Event, path: string)
    requires Bounded(s.order, s.cache) && Uses(s, e, path) && path != ""
    ensures path in Step(s, e).cache <==>
      !(path !in s.docs && path !in s.order && |s.order| == LIMIT
        && forall p | p in s.order :: !Evictable(p, s.docs.Keys))
    ensures path in Step(s, e).cache ==>
      Step(s, e).cache[path] ==
        if e.Requested? && path in s.cache then s.cache[path] else AnalyzeResult(e.analysis.value, s.edits)
  {
    hide Distinct, Touched, Without, Replaced, Superseded;
    UseIsTouch(s, e, path);
    var order, entered := Touched(s.order, path), Entered(s, e);
    assert path in entered.cache;
    TouchedEnds(s.order, path);
    var i := Victim(order, s.docs.Keys);
    if path !in s.docs && path !in s.order && |s.order| == LIMIT
       && forall p | p in s.order :: !Evictable(p, s.docs.Keys) {
      assert forall k | 0 <= k < LIMIT :: order[k] in s.order;
    }
  }

  lemma TouchedEnds(order: seq<string>, path: string)
    requires Distinct(order)
    ensures var r := Touched(order, path);
      |r| == (if path in order then |order| else |order| + 1) && r[|r| - 1] == path && Distinct(r)
      && (path !in order ==> r == order + [path])
  {
    TouchedDistinct(order, path);
    if path in order { ShorterWithout(order, path); } else { WithoutAbsent(order, path); }
  }

  /** An edit drops exactly the results of the file and of its listed importers. */
  lemma EditDropsIff(s: State, e: Event, path: string)
    requires e.Opened? || e.Changed? || e.Closed?
    ensures path in Step(s, e).cache <==> path in s.cache && path != e.path && path !in Importers(s.deps, e.path)
    ensures path in Step(s, e).cache ==> Step(s, e).cache[path] == s.cache[path]
  {
    hide Importers;
  }

  /** The version with which the document is open after the events, None if it is closed. */
  function OpenVersion(es: seq<Event>, path: string): Option<int>
    decreases |es|
  {
    if es == [] then None
    else
      var front := es[..|es| - 1];
      match es[|es| - 1]
      case Opened(p, version) => if p == path then Some(version) else OpenVersion(front, path)
      case Changed(p, version) => if p == path then Some(version) else OpenVersion(front, path)
      case Closed(p) => if p == path then None else OpenVersion(front, path)
      case _ => OpenVersion(front, path)
  }

  /** The documents that pin their results are those last opened or changed and not closed
      since, at their last version. */
  lemma {:induction false} DocumentsAreOpen(es: seq<Event>, path: string)
    ensures var docs := Run(START, es).docs;
      OpenVersion(es, path) == if path in docs then Some(docs[path]) else None
    decreases |es|
  {
    hide Run, Step;
    if es == [] {
      assert Run(START, es) == START by { RunNothing(); }
    } else {
      var front, e := es[..|es| - 1], es[|es| - 1];
      assert es == front + [e];
      RunAppend(START, front, e);
      DocumentsAreOpen(front, path);
      StepDocs(Run(START, front), e);
    }
  }

  lemma RunNothing()
    ensures Run(START, []) == START
  {
  }

  lemma StepDocs(s: State, e: Event)
    ensures Step(s, e).docs ==
      match e
      case Opened(path, version) => s.docs[path := version]
      case Changed(path, version) => s.docs[path := version]
      case Closed(path) => s.docs - {path}
      case _ => s.docs
  {
    hide Evicted, Touched, Replaced, Merged, Importers;
  }
}
