/** The resolver as it runs: rounds that edit the selection until one changes nothing. */
module Resolver {
  import opened Common
  import opened Graphs
  import opened SemVer
  import opened DependencyGraph
  import opened Resolve

  /* ---------- Constraints ---------- */

  predicate Has(cs: Constraints, n: string, c: Constraint) {
    n in cs && c in cs[n]
  }

  predicate NoEmptyList(cs: Constraints) {
    forall n | n in cs :: cs[n] != []
  }

  function Add(cs: Constraints, n: string, c: Constraint): Constraints {
    cs[n := (if n in cs then cs[n] else []) + [c]]
  }

  lemma AddHas(cs: Constraints, n: string, c: Constraint)
    ensures forall m, k :: Has(Add(cs, n, c), m, k) <==> Has(cs, m, k) || (m == n && k == c)
    ensures NoEmptyList(cs) ==> NoEmptyList(Add(cs, n, c))
  {
  }

  /** The parsed version requirements of the project. */
  predicate RootsParsed(p: Problem, rootReqs: map<string, Requirement>) {
    (forall n | n in p.rootDeps && p.rootDeps[n].VersionDep? ::
       n in rootReqs && p.world.parseReq(p.rootDeps[n].range) == Some(rootReqs[n]))
    && forall n | n in rootReqs :: n in p.rootDeps && p.rootDeps[n].VersionDep?
  }

  method AddFromPackage(p: Problem, parent: string, s: Selected, start: Constraints) returns (r: Result<Constraints>)
    requires s.version != "" && NoEmptyList(start)
    ensures r.Ok? <==> forall d | d in s.deps && d.spec.VersionDep? :: p.world.parseReq(d.spec.range).Some?
    ensures r.Ok? ==> NoEmptyList(r.value) && forall n, c ::
      Has(r.value, n, c) <==> Has(start, n, c) || DepConstraint(p, parent, s.version, s.deps, n, c)
  {
    var cs := start;
    for i := 0 to |s.deps|
      invariant NoEmptyList(cs)
      invariant forall k | 0 <= k < i && s.deps[k].spec.VersionDep? :: p.world.parseReq(s.deps[k].spec.range).Some?
      invariant forall n, c :: Has(cs, n, c) <==> Has(start, n, c) || DepConstraint(p, parent, s.version, s.deps[..i], n, c)
    {
      var d := s.deps[i];
      assert s.deps[..i + 1] == s.deps[..i] + [d];
      if d.spec.VersionDep? {
        var req := p.world.parseReq(d.spec.range);
        if req.None? { return Err("invalid dependency"); }
        AddHas(cs, d.name, Constraint(req.value, parent, Some(s.version)));
        cs := Add(cs, d.name, Constraint(req.value, parent, Some(s.version)));
      }
    }
    assert s.deps[..|s.deps|] == s.deps;
    return Ok(cs);
  }

  method AddFromRoots(p: Problem, rootReqs: map<string, Requirement>) returns (cs: Constraints)
    requires RootsParsed(p, rootReqs)
    ensures NoEmptyList(cs) && forall n, c :: Has(cs, n, c) <==> RootConstraint(p, n, c)
  {
    cs := map[];
    var left := rootReqs.Keys;
    while left != {}
      invariant left <= rootReqs.Keys && NoEmptyList(cs)
      invariant forall n, c :: Has(cs, n, c) <==> n !in left && RootConstraint(p, n, c)
      decreases |left|
    {
      var n :| n in left;
      left := left - {n};
      AddHas(cs, n, Constraint(rootReqs[n], PROJECT, None));
      cs := Add(cs, n, Constraint(rootReqs[n], PROJECT, None));
    }
  }

  /** The constraints of the project and of every selected version. */
  method CollectConstraints(p: Problem, rootReqs: map<string, Requirement>,
                            sel: Selection) returns (r: Result<Constraints>)
    requires RootsParsed(p, rootReqs)
    ensures r.Ok? <==> RangesParse(p, sel)
    ensures r.Ok? ==> Collected(p, sel, r.value)
  {
    hide DepConstraint, RootConstraint;
    var cs := AddFromRoots(p, rootReqs);
    var left := sel.Keys;
    while left != {}
      invariant left <= sel.Keys && NoEmptyList(cs)
      invariant forall n, c :: Has(cs, n, c) <==>
        RootConstraint(p, n, c)
        || (c.requiredBy in sel.Keys - left
            && DepConstraint(p, c.requiredBy, sel[c.requiredBy].version, sel[c.requiredBy].deps, n, c))
      invariant forall m | m in sel.Keys - left && sel[m].version != "" ::
        forall d | d in sel[m].deps && d.spec.VersionDep? :: p.world.parseReq(d.spec.range).Some?
      decreases |left|
    {
      var m :| m in left;
      left := left - {m};
      if sel[m].version == "" {
        NoVersionNoConstraint(p, m, sel[m]);
      } else {
        var added := AddFromPackage(p, m, sel[m], cs);
        if added.Err? { return Err(added.message); }
        RequiredByParent(p, m, sel[m]);
        cs := added.value;
      }
    }
    HasIsCollected(p, sel, cs);
    return Ok(cs);
  }

  lemma NoVersionNoConstraint(p: Problem, m: string, s: Selected)
    requires s.version == ""
    ensures forall n, c :: !DepConstraint(p, m, s.version, s.deps, n, c)
  {
  }

  lemma RequiredByParent(p: Problem, m: string, s: Selected)
    ensures forall n, c | DepConstraint(p, m, s.version, s.deps, n, c) :: c.requiredBy == m
  {
  }

  lemma HasIsCollected(p: Problem, sel: Selection, cs: Constraints)
    requires NoEmptyList(cs) && forall n, c :: Has(cs, n, c) <==> IsConstraint(p, sel, n, c)
    ensures Collected(p, sel, cs)
  {
    hide IsConstraint;
    forall n, c | IsConstraint(p, sel, n, c) ensures n in cs && c in cs[n] { assert Has(cs, n, c); }
    forall n | n in cs ensures cs[n] != [] && forall c | c in cs[n] :: IsConstraint(p, sel, n, c) {
      forall c | c in cs[n] ensures IsConstraint(p, sel, n, c) { assert Has(cs, n, c); }
    }
  }

  /* ---------- One round ---------- */

  function Restrict(sel: Selection, keep: set<string>): Selection {
    map n | n in sel && n in keep :: sel[n]
  }

  /** Names a directory gives to its package: the only ones path loading can add. */
  function DirectoryNames(w: World): set<string> {
    set dir | dir in w.directories :: w.directories[dir].name
  }

  lemma LoadedIsGenuine(p: Problem, from: string, n: string, path: string)
    requires LoadPath(p.world, from, n, path).Some?
    ensures var s := LoadPath(p.world, from, n, path).value;
      Genuine(p, n, s) && s.pathRoot.Some? && n in DirectoryNames(p.world)
  {
  }

  /** Adding entries for new names keeps the selection grounded. */
  lemma GroundedAdd(p: Problem, sel: Selection, n: string, s: Selected)
    requires Grounded(p, sel) && Genuine(p, n, s)
    requires n in sel ==> sel[n].pathRoot.None? && s.pathRoot.None?
    ensures Grounded(p, sel[n := s])
  {
    hide Genuine, LoadPath;
    forall r | r in p.rootDeps && p.rootDeps[r].PathDep?
      ensures Some(sel[n := s][r]) == LoadPath(p.world, p.projectRoot, r, p.rootDeps[r].path)
    {
      assert r != n by { assert r in sel && sel[r].pathRoot.Some?; }
    }
  }

  method KeysOf(names: set<string>) returns (list: seq<string>)
    ensures forall n :: n in list <==> n in names
    ensures names != {} ==> list != []
  {
    list := [];
    var left := names;
    while left != {}
      invariant left <= names && forall n :: n in list <==> n in names - left
      decreases |left|
    {
      var n :| n in left;
      left := left - {n};
      list := list + [n];
    }
    if names != {} {
      var n :| n in names;
      assert n in list;
    }
  }

  function NameSet(deps: seq<Dep>): set<string> {
    set n | n in Names(deps)
  }

  /** Every name some selected package depends on. */
  function AllNames(sel: Selection): set<string> {
    set m, n | m in sel && n in Names(sel[m].deps) :: n
  }

  lemma NamesOfOne(sel: Selection, m: string)
    requires m in sel
    ensures NameSet(sel[m].deps) <= AllNames(sel)
  {
  }

  method MarkDeps(deps: seq<Dep>, marked: set<string>, waiting: seq<string>)
    returns (reachable: set<string>, queue: seq<string>)
    ensures marked <= reachable <= marked + NameSet(deps)
    ensures NameSet(deps) <= reachable && forall n | n in waiting :: n in queue
    ensures reachable == marked ==> queue == waiting
  {
    reachable, queue := marked, waiting;
    for i := 0 to |deps|
      invariant marked <= reachable <= marked + NameSet(deps)
      invariant forall k | 0 <= k < i :: deps[k].name in reachable
      invariant forall n | n in waiting :: n in queue
      invariant reachable == marked ==> queue == waiting
    {
      if deps[i].name !in reachable {
        assert Names(deps)[i] == deps[i].name;
        reachable := reachable + {deps[i].name};
        queue := queue + [deps[i].name];
      }
    }
  }

  /** The walk from the roots marks their dependencies, and further ones of selected
      packages; once it is at a selected package, every constrained name is marked too. */
  method Walk(roots: set<string>, sel: Selection, constrained: set<string>) returns (reachable: set<string>)
    requires roots <= sel.Keys
    ensures roots <= reachable <= roots + constrained + AllNames(sel)
    ensures roots != {} ==> constrained <= reachable
    ensures forall r | r in roots :: NameSet(sel[r].deps) <= reachable
  {
    hide NameSet, AllNames, RootsWalked;
    reachable := roots;
    var queue := KeysOf(roots);
    ghost var start := queue;
    ghost var universe := roots + constrained + AllNames(sel);
    assert constrained <= universe && AllNames(sel) <= universe;
    NoRootsWalked(roots, sel, reachable, queue);
    while queue != []
      invariant roots <= reachable <= universe
      invariant constrained <= reachable || queue == start
      invariant RootsWalked(roots, sel, reachable, queue)
      decreases |universe - reachable|, |queue|
    {
      var cur := queue[|queue| - 1];
      assert queue == start ==> cur in roots;
      ghost var marked, rest := reachable, queue[..|queue| - 1];
      assert queue == rest + [cur];
      queue := queue[..|queue| - 1];
      if cur in sel {
        NamesOfOne(sel, cur);
        reachable, queue := VisitPackage(sel[cur].deps, constrained, universe, reachable, queue);
      }
      RootWalked(roots, sel, marked, rest, cur, reachable, queue);
    }
    AllRootsWalked(roots, sel, reachable);
  }

  /** The dependencies of every root that has left the queue are marked. */
  predicate RootsWalked(roots: set<string>, sel: Selection, reachable: set<string>, queue: seq<string>)
    requires roots <= sel.Keys
  {
    forall r | r in roots && r !in queue :: NameSet(sel[r].deps) <= reachable
  }

  lemma NoRootsWalked(roots: set<string>, sel: Selection, reachable: set<string>, queue: seq<string>)
    requires roots <= sel.Keys && forall r | r in roots :: r in queue
    ensures RootsWalked(roots, sel, reachable, queue)
  {
  }

  lemma RootWalked(roots: set<string>, sel: Selection, marked: set<string>, rest: seq<string>, cur: string,
                   reachable: set<string>, queue: seq<string>)
    requires roots <= sel.Keys && RootsWalked(roots, sel, marked, rest + [cur]) && marked <= reachable
    requires (forall n | n in rest :: n in queue) && (cur in sel ==> NameSet(sel[cur].deps) <= reachable)
    ensures RootsWalked(roots, sel, reachable, queue)
  {
    hide NameSet;
    assert forall n | n in rest + [cur] :: n in rest || n == cur;
  }

  lemma AllRootsWalked(roots: set<string>, sel: Selection, reachable: set<string>)
    requires roots <= sel.Keys && RootsWalked(roots, sel, reachable, [])
    ensures forall r | r in roots :: NameSet(sel[r].deps) <= reachable
  {
  }

  /** One step of the walk: the dependencies of a selected package, then the constrained
      names. */
  method VisitPackage(deps: seq<Dep>, constrained: set<string>, ghost universe: set<string>, marked: set<string>,
                      waiting: seq<string>)
    returns (reachable: set<string>, queue: seq<string>)
    requires marked <= universe && constrained <= universe && NameSet(deps) <= universe
    ensures marked <= reachable <= universe && constrained <= reachable
    ensures NameSet(deps) <= reachable && forall n | n in waiting :: n in queue
    ensures reachable == marked ==> queue == waiting
    ensures reachable != marked ==> |universe - reachable| < |universe - marked|
  {
    hide NameSet;
    reachable, queue := MarkDeps(deps, marked, waiting);
    reachable := reachable + constrained;
    if reachable != marked { StrictlyFewer(universe - reachable, universe - marked); }
  }

  /** What the roots themselves depend on. */
  function RootNeeds(p: Problem, sel: Selection): set<string> {
    set r, n | r in p.rootDeps.Keys && r in sel && n in NameSet(sel[r].deps) :: n
  }

  lemma NeedsMarked(p: Problem, sel: Selection, reachable: set<string>)
    requires p.rootDeps.Keys <= sel.Keys && forall r | r in p.rootDeps.Keys :: NameSet(sel[r].deps) <= reachable
    ensures RootNeeds(p, sel) <= reachable
  {
    hide NameSet;
  }

  lemma GroundedRoots(p: Problem, sel: Selection)
    requires Grounded(p, sel)
    ensures p.rootDeps.Keys <= sel.Keys
  {
  }

  lemma RestrictStep(sel: Selection, reachable: set<string>, left: set<string>, n: string)
    requires n in left && left <= sel.Keys
    ensures n !in reachable ==> Restrict(sel, reachable + left) - {n} == Restrict(sel, reachable + (left - {n}))
    ensures n in reachable ==> Restrict(sel, reachable + left) == Restrict(sel, reachable + (left - {n}))
  {
    if n in reachable { assert reachable + left == reachable + (left - {n}); }
  }

  lemma RestrictAll(sel: Selection, keep: set<string>)
    requires sel.Keys <= keep
    ensures Restrict(sel, keep) == sel
  {
  }

  lemma GroundedRestrict(p: Problem, sel: Selection, keep: set<string>)
    requires Grounded(p, sel) && p.rootDeps.Keys <= keep
    ensures Grounded(p, Restrict(sel, keep))
  {
    hide Genuine, LoadPath;
  }

  /** The entry is what some path dependency of the package loads. */
  ghost predicate LoadedFor(p: Problem, s: Selected, n: string, entry: Selected) {
    exists d | d in s.deps :: d.spec.PathDep? && d.name == n
      && Some(entry) == LoadPath(p.world, if s.pathRoot.Some? then s.pathRoot.value else p.projectRoot, n, d.spec.path)
  }

  class Resolution {
    const p: Problem
    const rootReqs: map<string, Requirement>
    var selected: Selection
    var changed: bool

    constructor (p: Problem, rootReqs: map<string, Requirement>)
      ensures this.p == p && this.rootReqs == rootReqs && selected == map[] && !changed
    {
      this.p := p;
      this.rootReqs := rootReqs;
      selected := map[];
      changed := false;
    }

    /** Loads the path dependencies of one package that are not selected yet. */
    method FollowPathDeps(s: Selected) returns (ok: bool, added: set<string>)
      requires Grounded(p, selected)
      modifies this
      ensures ok ==> Grounded(p, selected) && selected.Keys == old(selected.Keys) + added
      ensures added !! old(selected.Keys) && added <= DirectoryNames(p.world)
      ensures changed == (old(changed) || added != {})
      ensures ok && added == {} ==> selected == old(selected) && PathDepsIn(s, selected)
      ensures forall n | n in old(selected) :: n in selected && selected[n] == old(selected)[n]
      ensures ok ==> forall n :: n in added <==> n !in old(selected) && exists d | d in s.deps :: d.spec.PathDep? && d.name == n
      ensures forall n | n in added :: n in selected && LoadedFor(p, s, n, selected[n])
      ensures PathDepsIn(s, old(selected)) ==> ok && added == {}
    {
      hide Grounded, Genuine, LoadPath, DirectoryNames;
      added := {};
      for i := 0 to |s.deps|
        invariant Grounded(p, selected) && selected.Keys == old(selected.Keys) + added
        invariant added !! old(selected.Keys) && added <= DirectoryNames(p.world)
        invariant changed == (old(changed) || added != {})
        invariant added == {} ==> selected == old(selected)
        invariant forall k | 0 <= k < i && s.deps[k].spec.PathDep? :: s.deps[k].name in selected
        invariant PathDepsIn(s, old(selected)) ==> added == {}
        invariant forall n | n in old(selected) :: n in selected && selected[n] == old(selected)[n]
        invariant forall n | n in added :: exists d | d in s.deps :: d.spec.PathDep? && d.name == n
        invariant forall n | n in added :: n in selected && LoadedFor(p, s, n, selected[n])
      {
        var d := s.deps[i];
        assert d in s.deps;
        if d.spec.PathDep? && d.name !in selected {
          var base := if s.pathRoot.Some? then s.pathRoot.value else p.projectRoot;
          var loaded := LoadPath(p.world, base, d.name, d.spec.path);
          if loaded.None? { return false, added; }
          LoadedIsGenuine(p, base, d.name, d.spec.path);
          GroundedAdd(p, selected, d.name, loaded.value);
          selected := selected[d.name := loaded.value];
          added := added + {d.name};
          assert LoadedFor(p, s, d.name, loaded.value);
          changed := true;
        }
      }
      forall n | exists d | d in s.deps :: d.spec.PathDep? && d.name == n ensures n in selected {
        var k :| 0 <= k < |s.deps| && s.deps[k].spec.PathDep? && s.deps[k].name == n;
      }
      return true, added;
    }

    /** Loads the path dependencies of selected packages, also of those just loaded. */
    method DiscoverPaths() returns (ok: bool)
      requires Grounded(p, selected)
      modifies this
      ensures ok ==> Grounded(p, selected)
      ensures old(changed) ==> changed
      ensures ok && !changed ==> selected == old(selected) && PathsFollowed(selected)
      ensures PathsFollowed(old(selected)) ==> ok && changed == old(changed) && selected == old(selected)
    {
      hide Grounded, Genuine, DirectoryNames;
      var pending := selected.Keys;
      while pending != {}
        invariant Grounded(p, selected) && pending <= selected.Keys
        invariant old(changed) ==> changed
        invariant !changed ==> selected == old(selected)
        invariant !changed ==> forall m | m in selected.Keys - pending ::
          (selected[m].version != "" || selected[m].pathRoot.Some?) ==> PathDepsIn(selected[m], selected)
        invariant PathsFollowed(old(selected)) ==> changed == old(changed) && selected == old(selected)
        decreases |DirectoryNames(p.world) - selected.Keys|, |pending|
      {
        var m :| m in pending;
        pending := pending - {m};
        if selected[m].version == "" && selected[m].pathRoot.None? { continue; }
        ghost var unused := DirectoryNames(p.world) - selected.Keys;
        var added;
        ok, added := FollowPathDeps(selected[m]);
        if !ok { return; }
        pending := pending + added;
        if added != {} { StrictlyFewer(DirectoryNames(p.world) - selected.Keys, unused); }
      }
      return true;
    }

    /** Packages that constraints name are selected, without a version yet. */
    method SelectConstrained(names: set<string>)
      requires Grounded(p, selected)
      modifies this
      ensures Grounded(p, selected) && names <= selected.Keys
      ensures old(changed) ==> changed
      ensures !changed ==> selected == old(selected)
      ensures names <= old(selected.Keys) ==> changed == old(changed) && selected == old(selected)
      ensures selected == WithStubs(old(selected), names)
    {
      hide Grounded, WithStubs;
      var left := names;
      NoStubs(selected);
      assert names - left == {};
      while left != {}
        invariant Grounded(p, selected) && left <= names && names - left <= selected.Keys
        invariant old(changed) ==> changed
        invariant !changed ==> selected == old(selected)
        invariant names <= old(selected.Keys) ==> changed == old(changed) && selected == old(selected)
        invariant selected == WithStubs(old(selected), names - left)
        decreases |left|
      {
        var n :| n in left;
        StubStep(old(selected), names - left, n);
        assert names - (left - {n}) == (names - left) + {n};
        left := left - {n};
        if n !in selected {
          GroundedAdd(p, selected, n, STUB);
          selected := selected[n := STUB];
          changed := true;
        }
      }
      assert names - left == names;
    }

    method KeepOnly(reachable: set<string>)
      modifies this
      ensures selected == Restrict(old(selected), reachable)
      ensures changed == (old(changed) || !(old(selected).Keys <= reachable))
    {
      hide Restrict;
      ghost var sel := selected;
      var left := selected.Keys;
      RestrictAll(sel, reachable + left);
      while left != {}
        invariant left <= sel.Keys && selected == Restrict(sel, reachable + left)
        invariant changed == (old(changed) || !(sel.Keys <= reachable + left))
        decreases |left|
      {
        var n :| n in left;
        RestrictStep(sel, reachable, left, n);
        left := left - {n};
        if n !in reachable {
          selected := selected - {n};
          changed := true;
        }
      }
      assert reachable + {} == reachable;
    }

    /** Drops what the walk did not mark; the roots are always marked. */
    method DropUnreachable(constrained: set<string>)
      requires Grounded(p, selected)
      modifies this
      ensures Grounded(p, selected)
      ensures old(changed) ==> changed
      ensures !changed ==> selected == old(selected) && selected.Keys <= p.rootDeps.Keys + constrained + AllNames(selected)
      ensures p.rootDeps.Keys != {} && old(selected).Keys <= p.rootDeps.Keys + constrained + RootNeeds(p, old(selected))
          ==> changed == old(changed) && selected == old(selected)
      ensures forall n | n in old(selected) && n in RootNeeds(p, old(selected)) ::
          n in selected && selected[n] == old(selected)[n]
    {
      GroundedRoots(p, selected);
      hide Grounded, AllNames, NameSet, RootNeeds;
      var reachable := Walk(p.rootDeps.Keys, selected, constrained);
      ghost var sel := selected;
      NeedsMarked(p, sel, reachable);
      KeepOnly(reachable);
      GroundedRestrict(p, sel, reachable);
      if sel.Keys <= reachable { RestrictAll(sel, reachable); }
    }

    /** Chooses the version of one constrained package and loads its manifest. */
    method PickOne(n: string, cs: seq<Constraint>) returns (ok: bool)
      requires Grounded(p, selected)
      modifies this
      ensures ok ==> Grounded(p, selected)
      ensures old(changed) ==> changed
      ensures ok && !changed ==> selected == old(selected) && n in selected && UpToDate(p, n, cs, selected[n])
      ensures n in old(selected) && UpToDate(p, n, cs, old(selected)[n])
          ==> ok && changed == old(changed) && selected == old(selected)
      ensures ok <==> PickedEntry(p, n, cs, EntryAt(old(selected), n)).Some?
      ensures ok ==> selected == old(selected)[n := PickedEntry(p, n, cs, EntryAt(old(selected), n)).value]
    {
      hide Grounded, Satisfies, Compare, Matching;
      if n in selected && selected[n].pathRoot.Some? { return true; }
      if Overridden(p, n) {
        var version := p.overrides[n];
        if exists c | c in cs :: !VersionSatisfies(p.world.parse, version, c.range) { return false; }
        if n !in p.world.listed || version !in p.world.listed[n] { return false; }
        if n in selected && selected[n].version == version && selected[n].checksum != "" && selected[n].isOverride {
          return true;
        }
        ok := Load(n, version, true);
        return;
      }
      if n !in p.world.listed { return false; }
      if p.world.listed[n] == [] {
        NothingListed(p, n, cs);
        return false;
      }
      var matching := Matching(p, n, cs);
      if matching == [] { return false; }
      var chosen := PickVersion(n, matching, p.prefer, p.floating);
      if n in selected && selected[n].version == chosen && selected[n].checksum != "" { return true; }
      ok := Load(n, chosen, false);
    }

    method Load(n: string, version: string, isOverride: bool) returns (ok: bool)
      requires Grounded(p, selected) && (n in selected ==> selected[n].pathRoot.None?)
      modifies this
      ensures ok ==> Grounded(p, selected) && changed
      ensures old(changed) ==> changed
      ensures !ok ==> changed == old(changed) && selected == old(selected)
      ensures ok <==> (n, version) in p.world.published
      ensures ok ==> selected == old(selected)[n := Selected(version, p.world.published[(n, version)].checksum, REGISTRY,
                                                    p.world.published[(n, version)].deps, isOverride, None)]
    {
      hide Grounded;
      if (n, version) !in p.world.published { return false; }
      var m := p.world.published[(n, version)];
      var entry := Selected(version, m.checksum, REGISTRY, m.deps, isOverride, None);
      GroundedAdd(p, selected, n, entry);
      selected := selected[n := entry];
      changed := true;
      return true;
    }

    method Pick(cs: Constraints) returns (ok: bool)
      requires Grounded(p, selected)
      modifies this
      ensures ok ==> Grounded(p, selected)
      ensures old(changed) ==> changed
      ensures ok && !changed ==>
        selected == old(selected) && forall n | n in cs :: n in selected && UpToDate(p, n, cs[n], selected[n])
      ensures (forall n | n in cs :: n in old(selected) && UpToDate(p, n, cs[n], old(selected)[n]))
          ==> ok && changed == old(changed) && selected == old(selected)
      ensures ok <==> Pickable(p, cs, old(selected), cs.Keys)
      ensures ok ==> selected == PickedAll(p, cs, old(selected), cs.Keys)
    {
      hide Grounded, UpToDate, PickedEntry, Pickable, PickedAll, EntryAt;
      var left := cs.Keys;
      PickNone(p, cs, selected);
      assert cs.Keys - left == {};
      while left != {}
        invariant left <= cs.Keys && Grounded(p, selected)
        invariant old(changed) ==> changed
        invariant !changed ==> selected == old(selected) && forall n | n in cs.Keys - left ::
          n in selected && UpToDate(p, n, cs[n], selected[n])
        invariant (forall n | n in cs :: n in old(selected) && UpToDate(p, n, cs[n], old(selected)[n]))
              ==> changed == old(changed) && selected == old(selected)
        invariant Pickable(p, cs, old(selected), cs.Keys - left)
        invariant selected == PickedAll(p, cs, old(selected), cs.Keys - left)
        decreases |left|
      {
        var n :| n in left;
        PickStep(p, cs, old(selected), cs.Keys - left, n);
        assert cs.Keys - (left - {n}) == (cs.Keys - left) + {n};
        left := left - {n};
        ok := PickOne(n, cs[n]);
        if !ok {
          PickableSome(p, cs, old(selected), cs.Keys - left);
          return;
        }
      }
      assert cs.Keys - left == cs.Keys;
      return true;
    }

    /** One round. A round without a change has checked everything; and a settled
        selection is left alone. */
    method Round() returns (ok: bool)
      requires Grounded(p, selected) && RootsParsed(p, rootReqs)
      modifies this
      ensures ok ==> Grounded(p, selected)
      ensures ok && !changed ==> selected == old(selected) && Quiet(p, selected)
      ensures Settled(p, old(selected)) ==> ok && !changed && selected == old(selected)
      ensures Plain(p, old(selected)) ==> RoundOutcome(p, old(selected), ok, selected, changed)
    {
      hide Grounded, Quiet, Settled, Collected, RangesParse, UpToDate, PathsFollowed, RootsParsed, AllNames, Pickable,
           PickedAll, WithStubs, Plain, RoundBy;
      ghost var start := selected;
      var collected := CollectConstraints(p, rootReqs, selected);
      SettledParts(p, start);
      PlainParts(p, start);
      if collected.Err? { return false; }
      var cs := collected.value;
      if Settled(p, start) { SettledUnderList(p, start, cs); }
      GroundedRoots(p, start);
      if Plain(p, start) { PlainUnderList(p, start, cs); }
      changed := false;
      ok := DiscoverPaths();
      if !ok { return; }
      SelectConstrained(cs.Keys);
      DropUnreachable(cs.Keys);
      ok := Pick(cs);
      if ok && !changed { NoChangeIsQuiet(p, selected, cs); }
      if Plain(p, start) { RoundIsBy(p, start, cs, ok, selected, changed); }
    }
  }

  /** A selection in which a round has nothing to load from directories and nothing to drop. */
  ghost predicate Plain(p: Problem, sel: Selection) {
    p.rootDeps.Keys != {} && RangesParse(p, sel) && PathsFollowed(sel)
    && forall n | n in sel :: n in p.rootDeps || IsConstrained(p, sel, n) || n in RootNeeds(p, sel)
  }

  /** What a round does to a plain selection, whatever order it works in: constrained
      packages are added and picked, each by the list of its constraints. */
  ghost predicate RoundBy(p: Problem, sel: Selection, cs: Constraints, ok: bool, after: Selection, changed: bool) {
    var full := WithStubs(sel, cs.Keys);
    Collected(p, sel, cs) && (ok <==> Pickable(p, cs, full, cs.Keys))
    && (ok ==> after == PickedAll(p, cs, full, cs.Keys)
               && (changed <==> exists n | n in cs :: n !in sel || !UpToDate(p, n, cs[n], sel[n])))
  }

  ghost predicate RoundOutcome(p: Problem, sel: Selection, ok: bool, after: Selection, changed: bool) {
    exists cs: Constraints :: RoundBy(p, sel, cs, ok, after, changed)
  }

  lemma PlainParts(p: Problem, sel: Selection)
    ensures Plain(p, sel) ==> RangesParse(p, sel)
  {
    hide IsConstraint, RangesParse, PathsFollowed;
  }

  lemma RoundIsBy(p: Problem, sel: Selection, cs: Constraints, ok: bool, after: Selection, changed: bool)
    requires var full := WithStubs(sel, cs.Keys);
      Collected(p, sel, cs) && (ok <==> Pickable(p, cs, full, cs.Keys)) && (ok ==> after == PickedAll(p, cs, full, cs.Keys))
      && (ok && !changed ==> after == full == sel && forall n | n in cs :: n in after && UpToDate(p, n, cs[n], after[n]))
    requires (forall n | n in cs :: n in sel && UpToDate(p, n, cs[n], sel[n])) ==> !changed
    ensures RoundOutcome(p, sel, ok, after, changed)
  {
    hide Collected, Pickable, PickedAll, UpToDate, WithStubs;
    assert RoundBy(p, sel, cs, ok, after, changed);
  }

  lemma PlainUnderList(p: Problem, sel: Selection, cs: Constraints)
    requires Plain(p, sel) && Collected(p, sel, cs) && p.rootDeps.Keys <= sel.Keys
    ensures RangesParse(p, sel) && PathsFollowed(sel) && p.rootDeps.Keys != {}
    ensures var full := WithStubs(sel, cs.Keys);
      full.Keys <= p.rootDeps.Keys + cs.Keys + RootNeeds(p, full)
    ensures WithStubs(sel, cs.Keys).Keys == sel.Keys + cs.Keys
    ensures cs.Keys <= sel.Keys ==> WithStubs(sel, cs.Keys) == sel
  {
    hide IsConstraint, RangesParse, PathsFollowed, NameSet;
    var full := WithStubs(sel, cs.Keys);
    forall n | n in full ensures n in p.rootDeps.Keys + cs.Keys + RootNeeds(p, full) {
      if n in RootNeeds(p, sel) {
        var r :| r in p.rootDeps.Keys && r in sel && n in NameSet(sel[r].deps);
        assert full[r] == sel[r];
      }
    }
  }

  lemma SettledParts(p: Problem, sel: Selection)
    ensures Settled(p, sel) ==> RangesParse(p, sel) && PathsFollowed(sel) && p.rootDeps.Keys != {}
  {
    hide IsConstraint, RangesParse, PathsFollowed, UpToDate;
  }

  lemma SettledUnderList(p: Problem, sel: Selection, cs: Constraints)
    requires Settled(p, sel) && Collected(p, sel, cs)
    ensures sel.Keys <= p.rootDeps.Keys + cs.Keys && cs.Keys <= sel.Keys
    ensures forall n | n in cs :: n in sel && UpToDate(p, n, cs[n], sel[n])
  {
    hide IsConstraint, RangesParse, PathsFollowed, UpToDate;
  }

  lemma NoChangeIsQuiet(p: Problem, sel: Selection, cs: Constraints)
    requires RangesParse(p, sel) && PathsFollowed(sel) && Collected(p, sel, cs)
    requires sel.Keys <= p.rootDeps.Keys + cs.Keys + AllNames(sel)
    requires forall n | n in cs :: n in sel && UpToDate(p, n, cs[n], sel[n])
    ensures Quiet(p, sel)
  {
    hide RangesParse, PathsFollowed, UpToDate, Picked, IsConstraint, IsConstrained, Edge, AllNames, GraphOf;
    forall n, c | IsConstraint(p, sel, n, c) ensures n in sel && Picked(p, sel, n, sel[n]) {
      UpToDateIsPicked(p, sel, cs, n, sel[n]);
    }
    forall n | n in sel ensures n in p.rootDeps || IsConstrained(p, sel, n) || exists m :: Edge(GraphOf(sel), m, n) {
      KeptForAReason(p, sel, cs, n);
    }
  }

  lemma KeptForAReason(p: Problem, sel: Selection, cs: Constraints, n: string)
    requires Collected(p, sel, cs) && n in sel && n in p.rootDeps.Keys + cs.Keys + AllNames(sel)
    ensures n in p.rootDeps || IsConstrained(p, sel, n) || exists m :: Edge(GraphOf(sel), m, n)
  {
    hide IsConstraint;
    if n in cs {
      assert cs[n][0] in cs[n];
    } else if n in AllNames(sel) {
      var m :| m in sel && n in Names(sel[m].deps);
      assert Edge(GraphOf(sel), m, n);
    }
  }

  /* ---------- The whole resolution ---------- */

  method ParseRoots(p: Problem) returns (r: Result<map<string, Requirement>>)
    ensures r.Ok? ==> RootsParsed(p, r.value)
    ensures r.Ok? <==> forall n | n in p.rootDeps && p.rootDeps[n].VersionDep? :: p.world.parseReq(p.rootDeps[n].range).Some?
  {
    var reqs: map<string, Requirement> := map[];
    var left := p.rootDeps.Keys;
    while left != {}
      invariant left <= p.rootDeps.Keys
      invariant forall n :: n in reqs <==> n in p.rootDeps && n !in left && p.rootDeps[n].VersionDep?
      invariant forall n | n in reqs :: p.world.parseReq(p.rootDeps[n].range) == Some(reqs[n])
      decreases |left|
    {
      var n :| n in left;
      left := left - {n};
      if p.rootDeps[n].VersionDep? {
        var req := p.world.parseReq(p.rootDeps[n].range);
        if req.None? { return Err("invalid version requirement"); }
        reqs := reqs[n := req.value];
      }
    }
    return Ok(reqs);
  }

  ghost predicate IsSeed(p: Problem, sel: Selection) {
    sel.Keys == p.rootDeps.Keys
    && forall n | n in p.rootDeps ::
         if p.rootDeps[n].VersionDep? then sel[n] == STUB
         else LoadPath(p.world, p.projectRoot, n, p.rootDeps[n].path) == Some(sel[n])
  }

  lemma SeedGrounded(p: Problem, sel: Selection)
    requires IsSeed(p, sel)
    ensures Grounded(p, sel)
  {
    hide LoadPath;
    forall n | n in p.rootDeps && p.rootDeps[n].PathDep? ensures Genuine(p, n, sel[n]) && sel[n].pathRoot.Some? {
      LoadedIsGenuine(p, p.projectRoot, n, p.rootDeps[n].path);
    }
  }

  /** The first selection: path roots loaded, version roots without a version. */
  method Seed(p: Problem) returns (r: Result<Selection>)
    ensures r.Ok? <==> forall n | n in p.rootDeps && p.rootDeps[n].PathDep? ::
              LoadPath(p.world, p.projectRoot, n, p.rootDeps[n].path).Some?
    ensures r.Ok? ==> Grounded(p, r.value) && IsSeed(p, r.value)
  {
    hide LoadPath, Grounded;
    var sel: Selection := map[];
    var left := p.rootDeps.Keys;
    while left != {}
      invariant left <= p.rootDeps.Keys && sel.Keys == p.rootDeps.Keys - left
      invariant forall n | n in sel ::
        if p.rootDeps[n].VersionDep? then sel[n] == STUB
        else LoadPath(p.world, p.projectRoot, n, p.rootDeps[n].path) == Some(sel[n])
      decreases |left|
    {
      var n :| n in left;
      left := left - {n};
      match p.rootDeps[n]
      case VersionDep(_) => sel := sel[n := STUB];
      case PathDep(path) =>
        var loaded := LoadPath(p.world, p.projectRoot, n, path);
        if loaded.None? { return Err("path dependency not found"); }
        sel := sel[n := loaded.value];
    }
    SeedGrounded(p, sel);
    return Ok(sel);
  }

  function PackageOf(s: Selected, isProduction: bool): ResolvedPackage {
    ResolvedPackage(s.version, s.checksum, s.source, NameSet(s.deps), s.isOverride, !isProduction)
  }

  function PackagesOf(sel: Selection, production: set<string>): map<string, ResolvedPackage> {
    map n | n in sel :: PackageOf(sel[n], n in production)
  }

  ghost predicate ComesFromSelection(p: Problem, packages: map<string, ResolvedPackage>) {
    exists sel: Selection :: Resolved(p, sel) && IsResult(p, sel, packages)
  }

  lemma ResultIs(p: Problem, sel: Selection, production: set<string>)
    requires forall n :: n in production <==> ReachedFrom(GraphOf(sel), p.productionRoots, n)
    ensures IsResult(p, sel, PackagesOf(sel, production))
  {
    hide ReachedFrom, GraphOf;
  }

  lemma ResultPassesLockCheck(p: Problem, sel: Selection, packages: map<string, ResolvedPackage>)
    requires IsResult(p, sel, packages) && LockSatisfiesRootsAt(p, LockOf(sel))
    ensures LockSatisfiesRootsAt(p, LockEntries(packages))
  {
    hide ReachedFrom, RootSatisfied;
    assert LockEntries(packages) == LockOf(sel);
  }

  predicate AllPicked(sel: Selection) {
    forall n | n in sel :: sel[n].version != "" && sel[n].checksum != ""
  }

  /** Every round from `sel` ends with `next`, and changes something unless it is the last. */
  ghost predicate LeadsTo(p: Problem, sel: Selection, next: Selection, last: bool) {
    Plain(p, sel)
    && forall ok, after: Selection, changed | RoundOutcome(p, sel, ok, after, changed) ::
         ok && after == next && (changed <==> !last)
  }

  /** The selections that the rounds pass, where no order they work in makes a difference. */
  ghost predicate PlainRun(p: Problem, stages: seq<Selection>) {
    1 < |stages| <= MAX_ROUNDS + 1 && IsSeed(p, stages[0])
    && (forall n | n in p.rootDeps && p.rootDeps[n].VersionDep? :: p.world.parseReq(p.rootDeps[n].range).Some?)
    && (forall k | 0 <= k < |stages| - 1 :: LeadsTo(p, stages[k], stages[k + 1], k == |stages| - 2))
    && AllPicked(stages[|stages| - 1])
  }

  lemma SeedIs(p: Problem, sel: Selection, stages: seq<Selection>)
    requires PlainRun(p, stages) && IsSeed(p, sel)
    ensures 1 < |stages| <= MAX_ROUNDS + 1 && sel == stages[0]
  {
    hide LoadPath, Plain, RoundOutcome;
  }

  lemma RootsOfRun(p: Problem, stages: seq<Selection>)
    requires PlainRun(p, stages)
    ensures forall n | n in p.rootDeps && p.rootDeps[n].VersionDep? :: p.world.parseReq(p.rootDeps[n].range).Some?
    ensures forall n | n in p.rootDeps && p.rootDeps[n].PathDep? ::
        LoadPath(p.world, p.projectRoot, n, p.rootDeps[n].path).Some?
  {
    hide LoadPath, Plain, RoundOutcome;
  }

  lemma RoundLeads(p: Problem, stages: seq<Selection>, k: nat, ok: bool, after: Selection, changed: bool)
    requires PlainRun(p, stages) && k < |stages| - 1
    requires Plain(p, stages[k]) ==> RoundOutcome(p, stages[k], ok, after, changed)
    ensures ok && after == stages[k + 1] && (changed <==> k < |stages| - 2)
  {
    hide Plain, RoundOutcome, IsSeed;
    assert LeadsTo(p, stages[k], stages[k + 1], k == |stages| - 2);
  }

  lemma LastIsComplete(p: Problem, stages: seq<Selection>)
    requires PlainRun(p, stages)
    ensures AllPicked(stages[|stages| - 1])
  {
    hide LeadsTo, IsSeed;
  }

  /** Resolves the project's dependencies. On success the lockfile entries are those of a
      selection that meets everything `Resolved` asks, with `dev` set exactly on the
      packages the production roots do not reach, and they pass the lockfile check. */
  method ResolveDependencies(p: Problem, ghost stages: seq<Selection>) returns (r: Result<map<string, ResolvedPackage>>)
    ensures r.Ok? ==> ComesFromSelection(p, r.value) && LockSatisfiesRootsAt(p, LockEntries(r.value))
    ensures PlainRun(p, stages) ==>
        r.Ok? && IsResult(p, stages[|stages| - 1], r.value) && Resolved(p, stages[|stages| - 1])
  {
    hide Grounded, Quiet, Settled, ReachedFrom, LockSatisfiesRootsAt, RootsParsed, PlainRun, Plain, RoundOutcome, LoadPath,
         PackagesOf, IsResult;
    if PlainRun(p, stages) { RootsOfRun(p, stages); }
    var roots := ParseRoots(p);
    if roots.Err? { return Err(roots.message); }
    var seed := Seed(p);
    if seed.Err? { return Err(seed.message); }
    assert seed.value.Keys == p.rootDeps.Keys;
    if PlainRun(p, stages) { SeedIs(p, seed.value, stages); }
    var resolution := new Resolution(p, roots.value);
    resolution.selected := seed.value;
    for round := 0 to MAX_ROUNDS
      invariant round < MAX_ROUNDS && fresh(resolution) && Grounded(p, resolution.selected)
      invariant resolution.p == p && resolution.rootReqs == roots.value
      invariant PlainRun(p, stages) ==> round < |stages| - 1 && resolution.selected == stages[round]
    {
      ghost var before := resolution.selected;
      var ok := resolution.Round();
      if PlainRun(p, stages) { RoundLeads(p, stages, round, ok, resolution.selected, resolution.changed); }
      if !ok { return Err("no selection meets the constraints"); }
      if !resolution.changed { break; }
      if round == MAX_ROUNDS - 1 {
        var cycle := FindDependencyCycle(GraphOf(resolution.selected));
        return Err(if cycle.Some? then "did not converge: cycle" else "did not converge");
      }
    }
    var selected := resolution.selected;
    if PlainRun(p, stages) { LastIsComplete(p, stages); }
    var production := ComputeReachable(GraphOf(selected), p.productionRoots);
    if exists n | n in selected :: selected[n].version == "" || selected[n].checksum == "" {
      return Err("failed to select a version");
    }
    var packages := PackagesOf(selected, production);
    ResultIs(p, selected, production);
    SelectionPassesLockCheck(p, selected);
    ResultPassesLockCheck(p, selected, packages);
    return Ok(packages);
  }
}
