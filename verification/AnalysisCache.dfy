/** The analysis cache: an LRU order of at most 64 paths that never evicts open documents. */
module AnalysisCache {
  import opened Graphs
  import opened ReverseDeps

  const LIMIT := 64

  type Cache = map<string, AnalyzeResult>

  /* ---------- Touching ---------- */

  function Without(order: seq<string>, path: string): (r: seq<string>)
    ensures forall p | p in r :: p in order
  {
    if order == [] then []
    else if order[0] == path then order[1..]
    else [order[0]] + Without(order[1..], path)
  }

  /** The order once the path has become the most recent one. */
  function Touched(order: seq<string>, path: string): seq<string> {
    Without(order, path) + [path]
  }

  /** What an eviction may take: documents that are not open. The empty path ends the
      sweep like a missing one. */
  predicate Evictable(path: string, open: set<string>) {
    path == "" || path !in open
  }

  /** The first evictable place, or the length when all are pinned. */
  function Victim(order: seq<string>, open: set<string>): (i: nat)
    ensures i <= |order| && (i < |order| ==> Evictable(order[i], open))
    ensures forall j | 0 <= j < i :: !Evictable(order[j], open)
  {
    if order == [] then 0
    else if Evictable(order[0], open) then 0
    else
      var i := Victim(order[1..], open) + 1;
      assert forall j | 1 <= j < i :: order[j] == order[1..][j - 1];
      i
  }

  /** What remains once the sweep is over: the pinned paths it passed are now the most
      recent ones, and the victim is gone. */
  function Evicted(order: seq<string>, cache: Cache, open: set<string>): (seq<string>, Cache) {
    var i := Victim(order, open);
    if |order| <= LIMIT || i == |order| then (order, cache)
    else (order[i + 1..] + order[..i], if order[i] == "" then cache else cache - {order[i]})
  }

  predicate Terminates(order: seq<string>, open: set<string>) {
    |order| <= LIMIT || Victim(order, open) < |order|
  }

  predicate Bounded(order: seq<string>, cache: Cache) {
    Distinct(order) && |order| <= LIMIT && forall p | p in cache :: p in order || p == ""
  }

  lemma {:induction false} WithoutDistinct(order: seq<string>, path: string)
    requires Distinct(order)
    ensures Distinct(Without(order, path)) && path !in Without(order, path)
    ensures forall p :: p in Without(order, path) <==> p in order && p != path
    ensures |Without(order, path)| <= |order|
  {
    if order != [] {
      var rest := order[1..];
      assert forall i | 0 <= i < |rest| :: rest[i] == order[i + 1];
      WithoutDistinct(rest, path);
      assert order == [order[0]] + rest;
      if order[0] != path {
        var r := Without(rest, path);
        assert order[0] !in r;
        forall i, j | 0 <= i < j < |r| + 1 ensures ([order[0]] + r)[i] != ([order[0]] + r)[j] {
          if i > 0 { assert ([order[0]] + r)[i] == r[i - 1]; }
        }
      }
    }
  }

  lemma WithoutCons(first: string, rest: seq<string>, path: string)
    ensures Without([first] + rest, path) == if first == path then rest else [first] + Without(rest, path)
  {
    assert ([first] + rest)[1..] == rest;
  }

  lemma Regroup(head: string, tail: seq<string>, path: string, after: seq<string>)
    ensures [head] + tail + [path] + after == [head] + (tail + [path] + after)
    ensures [head] + tail + after == [head] + (tail + after)
  {
  }

  lemma {:induction false} WithoutSplice(before: seq<string>, path: string, after: seq<string>)
    requires path !in before
    ensures Without(before + [path] + after, path) == before + after
  {
    hide Without;
    if before == [] {
      WithoutCons(path, after, path);
      assert [] + [path] + after == [path] + after && [] + after == after;
    } else {
      var head, tail := before[0], before[1..];
      assert before == [head] + tail && head != path;
      WithoutSplice(tail, path, after);
      WithoutCons(head, tail + [path] + after, path);
      Regroup(head, tail, path, after);
    }
  }

  lemma {:induction false} WithoutAbsent(order: seq<string>, path: string)
    requires path !in order
    ensures Without(order, path) == order
  {
    if order != [] { WithoutAbsent(order[1..], path); }
  }

  /** Touching moves the path to the end and keeps the order of the others. */
  lemma TouchedMovesToEnd(before: seq<string>, path: string, after: seq<string>)
    requires path !in before
    ensures Touched(before + [path] + after, path) == before + after + [path]
    ensures Touched(before, path) == before + [path]
  {
    hide Without;
    WithoutSplice(before, path, after);
    WithoutAbsent(before, path);
  }

  lemma TouchedDistinct(order: seq<string>, path: string)
    requires Distinct(order)
    ensures Distinct(Touched(order, path)) && |Touched(order, path)| <= |order| + 1
    ensures forall p :: p in Touched(order, path) <==> p in order || p == path
  {
    WithoutDistinct(order, path);
  }

  /** With at most 64 open documents a sweep always finds a victim. */
  lemma FewOpenTerminates(order: seq<string>, open: set<string>)
    requires Distinct(order) && |open| <= LIMIT
    ensures Terminates(order, open)
  {
    if |order| > LIMIT && Victim(order, open) == |order| {
      forall p | p in order ensures p in open {
        var j :| 0 <= j < |order| && order[j] == p;
        assert !Evictable(order[j], open);
      }
      DistinctFits(order, open);
    }
  }

  /** What one touch does: at most 64 paths stay; at most one entry is evicted, the least
      recent one among those not open; every open document keeps its entry. */
  lemma TouchFacts(order: seq<string>, cache: Cache, path: string, open: set<string>)
    requires Distinct(order) && |order| <= LIMIT && forall p | p in cache :: p in order || p == path || p == ""
    requires Terminates(Touched(order, path), open)
    ensures var r := Evicted(Touched(order, path), cache, open);
      Bounded(r.0, r.1)
    ensures var r, updated := Evicted(Touched(order, path), cache, open), Touched(order, path);
      r.1 == cache
      || (|order| == LIMIT && path !in order && exists i | 0 <= i < |updated| ::
            updated[i] !in open && r.1 == cache - {updated[i]} && forall j | 0 <= j < i :: updated[j] in open)
    ensures var r := Evicted(Touched(order, path), cache, open);
      forall p | p in cache && p in open :: p in r.1 && r.1[p] == cache[p]
  {
    TouchedDistinct(order, path);
    var updated := Touched(order, path);
    var i := Victim(updated, open);
    var r := Evicted(updated, cache, open);
    if |updated| > LIMIT {
      WithoutDistinct(order, path);
      RotationKeeps(updated, i);
      if path in order { ShorterWithout(order, path); }
      if updated[i] != "" { assert updated[i] !in open && r.1 == cache - {updated[i]}; }
    }
  }

  lemma {:induction false} ShorterWithout(order: seq<string>, path: string)
    requires path in order
    ensures |Without(order, path)| == |order| - 1
  {
    if order[0] != path { ShorterWithout(order[1..], path); }
  }

  lemma RotationKeeps(order: seq<string>, i: nat)
    requires Distinct(order) && i < |order|
    ensures var r := order[i + 1..] + order[..i];
      Distinct(r) && |r| == |order| - 1 && forall p :: p in r <==> p in order && p != order[i]
  {
    var r := order[i + 1..] + order[..i];
    var n := |order| - i - 1;
    forall j | 0 <= j < |r| ensures r[j] == order[if j < n then i + 1 + j else j - n] {}
    forall p | p in order && p != order[i] ensures p in r {
      var j :| 0 <= j < |order| && order[j] == p;
      assert r[if j > i then j - i - 1 else j + n] == p;
    }
  }

  /* ---------- The sweep, step by step ---------- */

  datatype Sweep = Sweep(order: seq<string>, cache: Cache, done: bool)

  function EvictStep(order: seq<string>, cache: Cache, open: set<string>): Sweep
    requires order != []
  {
    var evict, rest := order[0], order[1..];
    if evict == "" then Sweep(rest, cache, true)
    else if evict in open then
      var rotated := rest + [evict];
      if |rotated| <= LIMIT then Sweep(rotated, cache, true)
      else if rotated[0] == evict then Sweep(rotated[1..], cache - {evict}, true)
      else Sweep(rotated, cache, false)
    else Sweep(rest, cache - {evict}, false)
  }

  predicate Ended(s: Sweep) {
    s.done || |s.order| <= LIMIT
  }

  /** The state after at most `n` passes through the loop. */
  function Iterate(order: seq<string>, cache: Cache, open: set<string>, n: nat): Sweep {
    if n == 0 then Sweep(order, cache, false)
    else
      var s := Iterate(order, cache, open, n - 1);
      if Ended(s) then s else EvictStep(s.order, s.cache, open)
  }

  predicate AllPinned(order: seq<string>, open: set<string>) {
    Distinct(order) && |order| == LIMIT + 1 && forall p | p in order :: !Evictable(p, open)
  }

  lemma PinnedStep(order: seq<string>, cache: Cache, open: set<string>)
    requires AllPinned(order, open)
    ensures var s := EvictStep(order, cache, open); !Ended(s) && AllPinned(s.order, open) && s.cache == cache
  {
    assert order[0] in order;
    var rotated := order[1..] + [order[0]];
    assert forall j | 0 <= j < |order| - 1 :: rotated[j] == order[j + 1];
  }

  /** With 65 open documents the sweep rotates for ever. */
  lemma {:induction false} PinnedForEver(order: seq<string>, cache: Cache, open: set<string>, n: nat)
    requires AllPinned(order, open)
    ensures var s := Iterate(order, cache, open, n); !Ended(s) && AllPinned(s.order, open) && s.cache == cache
  {
    if n > 0 {
      PinnedForEver(order, cache, open, n - 1);
      PinnedStep(Iterate(order, cache, open, n - 1).order, cache, open);
    }
  }

  /** Before the victim every pass moves one pinned path to the end. */
  lemma {:induction false} Rotates(order: seq<string>, cache: Cache, open: set<string>, n: nat)
    requires Distinct(order) && |order| == LIMIT + 1 && n <= Victim(order, open) < |order|
    ensures Iterate(order, cache, open, n) == Sweep(order[n..] + order[..n], cache, false)
  {
    if n > 0 {
      Rotates(order, cache, open, n - 1);
      var now := order[n - 1..] + order[..n - 1];
      assert now[0] == order[n - 1] && !Evictable(now[0], open);
      assert now[1..] + [now[0]] == order[n..] + order[..n];
      assert (order[n..] + order[..n])[0] == order[n] != order[n - 1];
    } else {
      assert order[0..] + order[..0] == order;
    }
  }

  lemma VictimTaken(order: seq<string>, cache: Cache, open: set<string>)
    requires Distinct(order) && |order| == LIMIT + 1 && Victim(order, open) < |order|
    ensures var s := Iterate(order, cache, open, Victim(order, open) + 1);
      Ended(s) && (s.order, s.cache) == Evicted(order, cache, open)
  {
    var i := Victim(order, open);
    Rotates(order, cache, open, i);
    var now := order[i..] + order[..i];
    assert now[0] == order[i] && now[1..] == order[i + 1..] + order[..i];
  }

  ghost predicate Stops(order: seq<string>, cache: Cache, open: set<string>) {
    exists n :: Ended(Iterate(order, cache, open, n))
  }

  /** The sweep after a touch stops exactly when some path is not open, or none has to go. */
  lemma StopsIff(order: seq<string>, cache: Cache, open: set<string>)
    requires Distinct(order) && |order| <= LIMIT + 1
    ensures Stops(order, cache, open) <==> Terminates(order, open)
  {
    if |order| <= LIMIT {
      assert Ended(Iterate(order, cache, open, 0));
    } else if Victim(order, open) < |order| {
      VictimTaken(order, cache, open);
    } else {
      forall p | p in order ensures !Evictable(p, open) {
        var j :| 0 <= j < |order| && order[j] == p;
      }
      forall n: nat ensures !Ended(Iterate(order, cache, open, n)) { PinnedForEver(order, cache, open, n); }
    }
  }
}
