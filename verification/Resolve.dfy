/** Dependency resolution: a bounded fixpoint over a map of selected packages. */
module Resolve {
  import opened Common
  import opened Graphs
  import opened SemVer
  import opened DependencyGraph

  datatype DepSpec = VersionDep(range: string) | PathDep(path: string)

  datatype Dep = Dep(name: string, spec: DepSpec)

  /** What reading a published package or a package directory yields. */
  datatype Manifest = Manifest(name: string, version: string, checksum: string, deps: seq<Dep>)

  /** The registry and the file system, which do not change during a resolution. */
  datatype World = World(
    parse: Parser,
    parseReq: string -> Option<Requirement>,
    listed: map<string, seq<string>>,
    published: map<(string, string), Manifest>,
    absolute: (string, string) -> string,
    directories: map<string, Manifest>)

  datatype Selected = Selected(version: string, checksum: string, source: string, deps: seq<Dep>,
                               isOverride: bool, pathRoot: Option<string>)

  type Selection = map<string, Selected>

  datatype Constraint = Constraint(range: Requirement, requiredBy: string, requiredByVersion: Option<string>)

  datatype Problem = Problem(
    world: World,
    projectRoot: string,
    rootDeps: map<string, DepSpec>,
    prefer: map<string, string>,
    floating: set<string>,
    overrides: map<string, string>,
    productionRoots: set<string>)

  datatype ResolvedPackage = ResolvedPackage(version: string, checksum: string, source: string,
                                             dependencies: set<string>, isOverride: bool, dev: bool)

  const REGISTRY := "registry"
  const STUB := Selected("", "", REGISTRY, [], false, None)
  const PROJECT := "project"
  const MAX_ROUNDS := 64

  function Names(deps: seq<Dep>): (r: seq<string>)
    ensures |r| == |deps| && forall i | 0 <= i < |deps| :: r[i] == deps[i].name
  {
    seq(|deps|, i requires 0 <= i < |deps| => deps[i].name)
  }

  function GraphOf(sel: Selection): Graph {
    map n | n in sel :: Names(sel[n].deps)
  }

  function PathSource(absolute: string): string {
    "path:" + absolute
  }

  /** loadPathPackage: None when the directory has no fitting manifest. */
  function LoadPath(w: World, from: string, name: string, path: string): Option<Selected> {
    var dir := w.absolute(from, path);
    if dir !in w.directories || w.directories[dir].name != name || w.directories[dir].version == "" then None
    else
      var m := w.directories[dir];
      Some(Selected(m.version, m.checksum, PathSource(dir), m.deps, false, Some(dir)))
  }

  /* ---------- What the selection has to meet ---------- */

  predicate RootConstraint(p: Problem, n: string, c: Constraint) {
    c.requiredBy == PROJECT && c.requiredByVersion.None?
    && n in p.rootDeps && p.rootDeps[n].VersionDep? && p.world.parseReq(p.rootDeps[n].range) == Some(c.range)
  }

  /** One of these dependencies of a package constrains `n`. */
  predicate DepConstraint(p: Problem, parent: string, version: string, deps: seq<Dep>, n: string, c: Constraint) {
    version != "" && c.requiredBy == parent && c.requiredByVersion == Some(version)
    && exists d | d in deps :: d.name == n && d.spec.VersionDep? && p.world.parseReq(d.spec.range) == Some(c.range)
  }

  /** The constraint comes from the project or from the manifest of a selected version. */
  predicate IsConstraint(p: Problem, sel: Selection, n: string, c: Constraint) {
    RootConstraint(p, n, c)
    || (c.requiredBy in sel && DepConstraint(p, c.requiredBy, sel[c.requiredBy].version, sel[c.requiredBy].deps, n, c))
  }

  type Constraints = map<string, seq<Constraint>>

  /** `cs` lists the constraints of the selection: all of them, and no others. */
  ghost predicate Collected(p: Problem, sel: Selection, cs: Constraints) {
    (forall n, c | IsConstraint(p, sel, n, c) :: n in cs && c in cs[n])
    && (forall n | n in cs :: cs[n] != [] && forall c | c in cs[n] :: IsConstraint(p, sel, n, c))
  }

  function Ranges(cs: seq<Constraint>): (r: seq<Requirement>)
    ensures |r| == |cs| && forall i | 0 <= i < |cs| :: r[i] == cs[i].range
  {
    seq(|cs|, i requires 0 <= i < |cs| => cs[i].range)
  }

  /** A published version that every constraint of the selection allows. */
  ghost predicate Allowed(p: Problem, sel: Selection, n: string, v: string) {
    n in p.world.listed && v in p.world.listed[n] && p.world.parse(v).Some?
    && forall c | IsConstraint(p, sel, n, c) :: Satisfies(p.world.parse(v).value, c.range)
  }

  predicate Overridden(p: Problem, n: string) {
    n in p.overrides && p.overrides[n] != ""
  }

  /** The locked version to keep, where one is still allowed. */
  ghost predicate Preferred(p: Problem, sel: Selection, n: string) {
    n in p.prefer && n !in p.floating && p.prefer[n] != "" && Allowed(p, sel, n, p.prefer[n])
  }

  ghost predicate Highest(p: Problem, sel: Selection, n: string, v: string) {
    Allowed(p, sel, n, v)
    && forall u | Allowed(p, sel, n, u) :: Compare(p.world.parse(u).value, p.world.parse(v).value) <= 0
  }

  /** The version a constrained registry package has to sit at. */
  ghost predicate RightVersion(p: Problem, sel: Selection, n: string, v: string) {
    Allowed(p, sel, n, v)
    && if Overridden(p, n) then v == p.overrides[n]
       else if Preferred(p, sel, n) then v == p.prefer[n]
       else Highest(p, sel, n, v)
  }

  ghost predicate IsConstrained(p: Problem, sel: Selection, n: string) {
    exists c :: IsConstraint(p, sel, n, c)
  }

  /** Registry entries are unselected or carry the manifest of their version; path
      entries carry the manifest of their directory. */
  predicate Genuine(p: Problem, n: string, s: Selected) {
    match s.pathRoot
    case Some(dir) =>
      dir in p.world.directories
      && var m := p.world.directories[dir];
         s == Selected(m.version, m.checksum, PathSource(dir), m.deps, false, Some(dir))
         && m.name == n && m.version != ""
    case None =>
      s == STUB
      || ((n, s.version) in p.world.published && s.source == REGISTRY
          && s.checksum == p.world.published[(n, s.version)].checksum
          && s.deps == p.world.published[(n, s.version)].deps)
  }

  /** What every round keeps: the roots are there, of the kind the project asked for, and
      every entry is genuine. */
  ghost predicate Grounded(p: Problem, sel: Selection) {
    (forall n | n in sel :: Genuine(p, n, sel[n]))
    && (forall n | n in p.rootDeps :: n in sel && (p.rootDeps[n].VersionDep? <==> sel[n].pathRoot.None?))
    && (forall n | n in p.rootDeps && p.rootDeps[n].PathDep? ::
          Some(sel[n]) == LoadPath(p.world, p.projectRoot, n, p.rootDeps[n].path))
  }

  /* ---------- Rounds that change nothing ---------- */

  predicate PathDepsIn(s: Selected, sel: Selection) {
    forall d | d in s.deps && d.spec.PathDep? :: d.name in sel
  }

  predicate PathsFollowed(sel: Selection) {
    forall m | m in sel && (sel[m].version != "" || sel[m].pathRoot.Some?) :: PathDepsIn(sel[m], sel)
  }

  predicate RangesParse(p: Problem, sel: Selection) {
    forall m | m in sel && sel[m].version != "" ::
      forall d | d in sel[m].deps && d.spec.VersionDep? :: p.world.parseReq(d.spec.range).Some?
  }

  /** The selected entry is one the picking step leaves alone. */
  ghost predicate Picked(p: Problem, sel: Selection, n: string, s: Selected) {
    s.pathRoot.Some?
    || (s.checksum != "" && RightVersion(p, sel, n, s.version) && (Overridden(p, n) ==> s.isOverride))
  }

  function PickVersion(n: string, matching: seq<string>, prefer: map<string, string>, floating: set<string>): string
    requires matching != []
  {
    if n !in floating && n in prefer && prefer[n] != "" && prefer[n] in matching then prefer[n] else matching[0]
  }

  function Matching(p: Problem, n: string, cs: seq<Constraint>): seq<string>
    requires n in p.world.listed
  {
    VersionsMatchingAll(p.world.parse, p.world.listed[n], Ranges(cs))
  }

  /** Nothing to do for this entry, given the constraints as a list. */
  predicate UpToDate(p: Problem, n: string, cs: seq<Constraint>, s: Selected) {
    s.pathRoot.Some?
    || (n in p.world.listed && s.checksum != ""
        && if Overridden(p, n) then
             s.version == p.overrides[n] && s.isOverride && s.version in p.world.listed[n]
             && forall c | c in cs :: VersionSatisfies(p.world.parse, s.version, c.range)
           else
             Matching(p, n, cs) != [] && s.version == PickVersion(n, Matching(p, n, cs), p.prefer, p.floating))
  }

  function EntryAt(sel: Selection, n: string): Option<Selected> {
    if n in sel then Some(sel[n]) else None
  }

  /** The version that the constraints in the list lead to, if there is one. */
  function Chosen(p: Problem, n: string, cs: seq<Constraint>): Option<string> {
    if n !in p.world.listed then None
    else if Overridden(p, n) then
      var v := p.overrides[n];
      if v in p.world.listed[n] && forall c | c in cs :: VersionSatisfies(p.world.parse, v, c.range) then Some(v) else None
    else
      var matching := Matching(p, n, cs);
      if matching == [] then None else Some(PickVersion(n, matching, p.prefer, p.floating))
  }

  /** What the picking step makes of an entry: path packages and entries at the chosen
      version stay, others are loaded; None where no version fits or none is published. */
  function PickedEntry(p: Problem, n: string, cs: seq<Constraint>, s: Option<Selected>): Option<Selected> {
    if s.Some? && s.value.pathRoot.Some? then s
    else
      var v := Chosen(p, n, cs);
      if v.None? then None
      else if s.Some? && UpToDate(p, n, cs, s.value) then s
      else if (n, v.value) !in p.world.published then None
      else
        var m := p.world.published[(n, v.value)];
        Some(Selected(v.value, m.checksum, REGISTRY, m.deps, Overridden(p, n), None))
  }

  /** The given names, which are constrained, can all be picked. */
  predicate Pickable(p: Problem, cs: Constraints, sel: Selection, names: set<string>)
    requires names <= cs.Keys
  {
    forall n | n in names :: PickedEntry(p, n, cs[n], EntryAt(sel, n)).Some?
  }

  function PickedAll(p: Problem, cs: Constraints, sel: Selection, names: set<string>): Selection
    requires names <= cs.Keys && Pickable(p, cs, sel, names)
  {
    map n | n in sel.Keys + names :: if n in names then PickedEntry(p, n, cs[n], EntryAt(sel, n)).value else sel[n]
  }

  lemma PickStep(p: Problem, cs: Constraints, sel: Selection, names: set<string>, n: string)
    requires names <= cs.Keys && Pickable(p, cs, sel, names) && n in cs && n !in names
    ensures EntryAt(PickedAll(p, cs, sel, names), n) == EntryAt(sel, n)
    ensures Pickable(p, cs, sel, names + {n}) <==> PickedEntry(p, n, cs[n], EntryAt(sel, n)).Some?
    ensures Pickable(p, cs, sel, names + {n}) ==>
      PickedAll(p, cs, sel, names)[n := PickedEntry(p, n, cs[n], EntryAt(sel, n)).value] == PickedAll(p, cs, sel, names + {n})
  {
    hide PickedEntry;
  }

  lemma PickNone(p: Problem, cs: Constraints, sel: Selection)
    ensures Pickable(p, cs, sel, {}) && PickedAll(p, cs, sel, {}) == sel
  {
  }

  lemma PickableSome(p: Problem, cs: Constraints, sel: Selection, names: set<string>)
    requires names <= cs.Keys && !Pickable(p, cs, sel, names)
    ensures !Pickable(p, cs, sel, cs.Keys)
  {
    hide PickedEntry;
  }

  lemma NothingListed(p: Problem, n: string, cs: seq<Constraint>)
    requires n in p.world.listed && p.world.listed[n] == []
    ensures Matching(p, n, cs) == []
  {
  }

  function WithStubs(sel: Selection, names: set<string>): Selection {
    map n | n in sel.Keys + names :: if n in sel then sel[n] else STUB
  }

  lemma StubStep(sel: Selection, names: set<string>, n: string)
    ensures WithStubs(sel, names + {n}) ==
      if n in WithStubs(sel, names) then WithStubs(sel, names) else WithStubs(sel, names)[n := STUB]
    ensures WithStubs(sel, names).Keys == sel.Keys + names
  {
  }

  lemma NoStubs(sel: Selection)
    ensures WithStubs(sel, {}) == sel
  {
  }

  /** All that a round without a change has checked. */
  ghost predicate Quiet(p: Problem, sel: Selection) {
    RangesParse(p, sel) && PathsFollowed(sel)
    && (forall n, c | IsConstraint(p, sel, n, c) :: n in sel && Picked(p, sel, n, sel[n]))
    && (forall n | n in sel :: n in p.rootDeps || IsConstrained(p, sel, n) || exists m :: Edge(GraphOf(sel), m, n))
  }

  /** The rest of what success needs: every package has a version and a checksum. */
  ghost predicate Resolved(p: Problem, sel: Selection) {
    Grounded(p, sel) && Quiet(p, sel) && forall n | n in sel :: sel[n].version != "" && sel[n].checksum != ""
  }

  lemma AllowedByList(p: Problem, sel: Selection, cs: Constraints, n: string, v: string)
    requires Collected(p, sel, cs) && n in cs && n in p.world.listed
    ensures Allowed(p, sel, n, v) <==> v in Matching(p, n, cs[n])
  {
    hide IsConstraint, Satisfies;
    var list := cs[n];
    if p.world.parse(v).Some? {
      var parsed := p.world.parse(v).value;
      if SatisfiesAll(parsed, Ranges(list)) {
        forall c | IsConstraint(p, sel, n, c) ensures Satisfies(parsed, c.range) {
          var i :| 0 <= i < |list| && list[i] == c;
          assert Satisfies(parsed, Ranges(list)[i]);
        }
      }
      if Allowed(p, sel, n, v) {
        forall i | 0 <= i < |list| ensures Satisfies(parsed, Ranges(list)[i]) {
          assert list[i] in list && IsConstraint(p, sel, n, list[i]);
        }
      }
    }
  }

  /** Up to date against the list of all constraints is sitting at the right version. */
  lemma UpToDateIsPicked(p: Problem, sel: Selection, cs: Constraints, n: string, s: Selected)
    requires Collected(p, sel, cs) && n in cs && UpToDate(p, n, cs[n], s)
    ensures Picked(p, sel, n, s)
  {
    hide IsConstraint, Satisfies, Compare;
    if s.pathRoot.None? {
      if Overridden(p, n) {
        assert cs[n][0] in cs[n];
        assert p.world.parse(s.version).Some?;
        forall c | IsConstraint(p, sel, n, c) ensures Satisfies(p.world.parse(s.version).value, c.range) {
          assert VersionSatisfies(p.world.parse, s.version, c.range);
        }
      } else {
        var matching := Matching(p, n, cs[n]);
        assert matching[0] in matching && s.version in matching;
        AllowedByList(p, sel, cs, n, s.version);
        if n in p.prefer { AllowedByList(p, sel, cs, n, p.prefer[n]); }
        forall u | Allowed(p, sel, n, u)
          ensures Compare(p.world.parse(u).value, p.world.parse(matching[0]).value) <= 0
        {
          AllowedByList(p, sel, cs, n, u);
          FirstIsHighest(p.world.parse, p.world.listed[n], Ranges(cs[n]), u);
        }
      }
    }
  }

  /** The only highest version is the one picked. */
  lemma HighestIsChosen(p: Problem, sel: Selection, cs: Constraints, n: string, v: string)
    requires Collected(p, sel, cs) && n in cs && n in p.world.listed && !Overridden(p, n) && n !in p.prefer
    requires Allowed(p, sel, n, v)
    requires forall u | Allowed(p, sel, n, u) && u != v :: Compare(p.world.parse(u).value, p.world.parse(v).value) < 0
    ensures Matching(p, n, cs[n]) != [] && Matching(p, n, cs[n])[0] == v && Chosen(p, n, cs[n]) == Some(v)
  {
    hide Allowed, Collected, Compare, VersionsMatchingAll;
    var matching := Matching(p, n, cs[n]);
    AllowedByList(p, sel, cs, n, v);
    assert matching[0] in matching;
    AllowedByList(p, sel, cs, n, matching[0]);
    var first := matching[0];
    assert v in p.world.listed[n] && Matches(p.world.parse, v, Ranges(cs[n]));
    FirstIsHighest(p.world.parse, p.world.listed[n], Ranges(cs[n]), v);
    if first != v { PrecedenceIsTotalOrder(p.world.parse(first).value, p.world.parse(v).value, p.world.parse(v).value); }
  }

  /** The outcome of picking, name by name. */
  lemma PickedIs(p: Problem, cs: Constraints, sel: Selection, next: Selection)
    requires cs.Keys <= sel.Keys == next.Keys
    requires forall n | n in cs :: PickedEntry(p, n, cs[n], EntryAt(sel, n)) == Some(next[n])
    requires forall n | n in sel && n !in cs :: next[n] == sel[n]
    ensures Pickable(p, cs, sel, cs.Keys) && PickedAll(p, cs, sel, cs.Keys) == next
  {
    hide PickedEntry, EntryAt;
  }

  /** A selection that a round leaves alone, whatever order it works in. */
  ghost predicate Settled(p: Problem, sel: Selection) {
    p.rootDeps.Keys != {} && RangesParse(p, sel) && PathsFollowed(sel)
    && (forall n | n in sel :: n in p.rootDeps || IsConstrained(p, sel, n))
    && (forall cs: Constraints | Collected(p, sel, cs) :: forall n | n in cs :: n in sel && UpToDate(p, n, cs[n], sel[n]))
  }

  /* ---------- What success means ---------- */

  lemma ConstraintOf(p: Problem, sel: Selection, m: string, d: Dep) returns (c: Constraint)
    requires RangesParse(p, sel) && m in sel && sel[m].version != "" && d in sel[m].deps && d.spec.VersionDep?
    ensures IsConstraint(p, sel, d.name, c) && c.requiredBy == m && p.world.parseReq(d.spec.range) == Some(c.range)
  {
    c := Constraint(p.world.parseReq(d.spec.range).value, m, Some(sel[m].version));
  }

  /** The selection is closed under dependencies, and each version requirement of a
      selected package is met by the package selected for it, unless that one comes
      from a directory. */
  lemma SelectionIsClosed(p: Problem, sel: Selection, m: string, d: Dep)
    requires Resolved(p, sel) && m in sel && d in sel[m].deps
    ensures d.name in sel
    ensures d.spec.VersionDep? && sel[d.name].pathRoot.None? ==>
      p.world.parseReq(d.spec.range).Some?
      && VersionSatisfies(p.world.parse, sel[d.name].version, p.world.parseReq(d.spec.range).value)
  {
    if d.spec.VersionDep? {
      var c := ConstraintOf(p, sel, m, d);
    }
  }

  /** Every constrained registry package sits at its override, or at its preferred
      version when that is not floating and still allowed, or at a highest version among
      the published ones that all constraints allow. */
  lemma SelectionSitsRight(p: Problem, sel: Selection, n: string)
    requires Resolved(p, sel) && n in sel && sel[n].pathRoot.None? && IsConstrained(p, sel, n)
    ensures RightVersion(p, sel, n, sel[n].version) && (Overridden(p, n) ==> sel[n].isOverride)
    ensures forall c | IsConstraint(p, sel, n, c) :: VersionSatisfies(p.world.parse, sel[n].version, c.range)
  {
    var c :| IsConstraint(p, sel, n, c);
  }

  /** A registry package without constraints is no root; some selected package names it
      as a path dependency. */
  lemma UnconstrainedIsPathTarget(p: Problem, sel: Selection, n: string) returns (m: string, d: Dep)
    requires Resolved(p, sel) && n in sel && sel[n].pathRoot.None? && !IsConstrained(p, sel, n)
    requires forall r | r in p.rootDeps && p.rootDeps[r].VersionDep? :: p.world.parseReq(p.rootDeps[r].range).Some?
    ensures m in sel && d in sel[m].deps && d.name == n && d.spec.PathDep?
  {
    if n in p.rootDeps {
      assert IsConstraint(p, sel, n, Constraint(p.world.parseReq(p.rootDeps[n].range).value, PROJECT, None));
    }
    m :| Edge(GraphOf(sel), m, n);
    var i :| 0 <= i < |sel[m].deps| && Names(sel[m].deps)[i] == n;
    d := sel[m].deps[i];
    if d.spec.VersionDep? { var c := ConstraintOf(p, sel, m, d); }
  }

  /** So a registry package that no selected package names by a path sits at the version
      that all constraints lead to. */
  lemma SitsRightUnlessPathTarget(p: Problem, sel: Selection, n: string)
    requires Resolved(p, sel) && n in sel && sel[n].pathRoot.None?
    requires forall r | r in p.rootDeps && p.rootDeps[r].VersionDep? :: p.world.parseReq(p.rootDeps[r].range).Some?
    requires forall m, d | m in sel && d in sel[m].deps && d.spec.PathDep? :: d.name != n
    ensures IsConstrained(p, sel, n) && RightVersion(p, sel, n, sel[n].version)
  {
    hide Grounded, Quiet, IsConstrained, RightVersion;
    if !IsConstrained(p, sel, n) { var m, d := UnconstrainedIsPathTarget(p, sel, n); }
    SelectionSitsRight(p, sel, n);
  }

  datatype Locked = Locked(version: string, source: string)

  function LockOf(sel: Selection): map<string, Locked> {
    map n | n in sel :: Locked(sel[n].version, sel[n].source)
  }

  predicate RootSatisfied(p: Problem, n: string, entry: Locked)
    requires n in p.rootDeps
  {
    match p.rootDeps[n]
    case PathDep(path) => entry.source == PathSource(p.world.absolute(p.projectRoot, path))
    case VersionDep(range) =>
      var req := p.world.parseReq(range);
      req.Some? && VersionsMatchingAll(p.world.parse, [entry.version], [req.value]) != []
  }

  /** lockSatisfiesRootsAt. */
  predicate LockSatisfiesRootsAt(p: Problem, locked: map<string, Locked>) {
    forall n | n in p.rootDeps :: n in locked && RootSatisfied(p, n, locked[n])
  }

  /** The lockfile check passes exactly when each root is locked: a path root at its
      directory, any other at a version its range allows. */
  lemma LockSatisfiedIff(p: Problem, locked: map<string, Locked>)
    ensures LockSatisfiesRootsAt(p, locked) <==>
      forall n | n in p.rootDeps :: n in locked && RootMet(p, n, locked[n])
  {
    hide VersionsMatchingAll, Allows, Satisfies;
    forall n | n in p.rootDeps && n in locked ensures RootSatisfied(p, n, locked[n]) <==> RootMet(p, n, locked[n]) {
      if p.rootDeps[n].VersionDep? && p.world.parseReq(p.rootDeps[n].range).Some? {
        var req := p.world.parseReq(p.rootDeps[n].range).value;
        SingletonMatch(p.world.parse, locked[n].version, req);
        if p.world.parse(locked[n].version).Some? { SatisfiesIffAllowed(p.world.parse(locked[n].version).value, req); }
      }
    }
  }

  predicate RootMet(p: Problem, n: string, entry: Locked)
    requires n in p.rootDeps
  {
    match p.rootDeps[n]
    case PathDep(path) => entry.source == PathSource(p.world.absolute(p.projectRoot, path))
    case VersionDep(range) =>
      p.world.parseReq(range).Some? && p.world.parse(entry.version).Some?
      && Allows(p.world.parseReq(range).value, p.world.parse(entry.version).value)
  }

  lemma SelectedRootIsSatisfied(p: Problem, sel: Selection, n: string)
    requires Resolved(p, sel) && n in p.rootDeps
    requires p.rootDeps[n].VersionDep? ==> p.world.parseReq(p.rootDeps[n].range).Some?
    ensures n in sel && RootSatisfied(p, n, LockOf(sel)[n])
  {
    hide VersionsMatchingAll;
    if p.rootDeps[n].VersionDep? {
      var req := p.world.parseReq(p.rootDeps[n].range).value;
      var c := Constraint(req, PROJECT, None);
      assert IsConstraint(p, sel, n, c);
      SingletonMatch(p.world.parse, sel[n].version, req);
    }
  }

  /** A successful selection passes the check a later install makes on its lockfile. */
  lemma SelectionPassesLockCheck(p: Problem, sel: Selection)
    requires Resolved(p, sel)
    requires forall r | r in p.rootDeps && p.rootDeps[r].VersionDep? :: p.world.parseReq(p.rootDeps[r].range).Some?
    ensures LockSatisfiesRootsAt(p, LockOf(sel))
  {
    hide RootSatisfied;
    forall n | n in p.rootDeps ensures n in sel && RootSatisfied(p, n, LockOf(sel)[n]) {
      SelectedRootIsSatisfied(p, sel, n);
    }
  }

  lemma EdgeOf(sel: Selection, m: string, d: Dep)
    requires m in sel && d in sel[m].deps && d.name in sel
    ensures Edge(GraphOf(sel), m, d.name)
  {
    var i :| 0 <= i < |sel[m].deps| && sel[m].deps[i] == d;
    assert Names(sel[m].deps)[i] == d.name;
  }

  lemma QuietIsAnchored(p: Problem, sel: Selection)
    requires Quiet(p, sel)
    ensures Anchored(GraphOf(sel), p.rootDeps.Keys)
  {
    var g := GraphOf(sel);
    forall n | n in g ensures n in p.rootDeps.Keys || exists m :: Edge(g, m, n) {
      if n !in p.rootDeps && IsConstrained(p, sel, n) {
        var c :| IsConstraint(p, sel, n, c);
        var d :| d in sel[c.requiredBy].deps && d.name == n;
        EdgeOf(sel, c.requiredBy, d);
      }
    }
  }

  /** Garbage dropping is exact if and only if the roots reach every dependency cycle of
      the selection: then what remains is what the roots reach. */
  lemma SelectionIsReachableIff(p: Problem, sel: Selection)
    requires Resolved(p, sel)
    ensures (forall n :: n in sel <==> ReachedFrom(GraphOf(sel), p.rootDeps.Keys, n))
       <==> CyclesReached(GraphOf(sel), p.rootDeps.Keys)
  {
    hide ReachedFrom;
    var g, roots := GraphOf(sel), p.rootDeps.Keys;
    QuietIsAnchored(p, sel);
    AnchoredIsReachedIff(g, roots);
    ClosedSetHoldsReached(g, roots, sel.Keys);
  }

  /** In particular without dependency cycles. */
  lemma AcyclicSelectionIsReachable(p: Problem, sel: Selection, n: string)
    requires Resolved(p, sel) && Acyclic(GraphOf(sel))
    ensures n in sel <==> ReachedFrom(GraphOf(sel), p.rootDeps.Keys, n)
  {
    hide ReachedFrom, Quiet, Grounded;
    SelectionIsReachableIff(p, sel);
  }

  function LockEntries(packages: map<string, ResolvedPackage>): map<string, Locked> {
    map n | n in packages :: Locked(packages[n].version, packages[n].source)
  }

  /** The lockfile entries of a selection. */
  ghost predicate IsResult(p: Problem, sel: Selection, packages: map<string, ResolvedPackage>) {
    packages.Keys == sel.Keys
    && forall n | n in sel ::
         packages[n].version == sel[n].version && packages[n].checksum == sel[n].checksum
         && packages[n].source == sel[n].source && packages[n].isOverride == sel[n].isOverride
         && packages[n].dependencies == (set m | m in Names(sel[n].deps))
         && (packages[n].dev <==> !ReachedFrom(GraphOf(sel), p.productionRoots, n))
  }
}
