/** The store as it runs: commands of several projects that edit the dependants index, the
    extracted versions and the lockfiles, and what holds in every run of them. */
module PackageStore {
  import opened Common
  import opened Store

  /* ---------- Commands ---------- */

  /** What an install of a project finds outside the store: whether the project has
      dependencies, whether its lockfile fits them, which package directories exist, and
      the answers of the registry and of the resolver. */
  datatype Situation = Situation(net: Net, hasRoots: bool, lockFits: bool, directories: set<string>,
                                 tentative: seq<Request>, outcome: Option<seq<LockPackage>>, nativesOk: bool)

  datatype Command =
    | InstallVersion(root: string, net: Net, request: Request)
    | Resolve(root: string, now: Situation)
    | InstallProject(root: string, now: Situation)
    | Remove(root: string, name: string, version: Option<string>)

  /** The packages of a lockfile in order, up to a path package whose directory is gone. */
  function InstallEach(net: Net, st: State, root: string, packages: seq<LockPackage>, directories: set<string>): Attempt
    decreases |packages|
  {
    if packages == [] then Attempt(st, true)
    else
      var p := packages[0];
      if IsPathSource(p.source) then
        if p.source in directories then InstallEach(net, st, root, packages[1..], directories) else Attempt(st, false)
      else
        var first := Install(net, st, root, Request(p.name, p.version, p.checksum));
        if first.ok then InstallEach(net, first.st, root, packages[1..], directories) else first
  }

  function ProjectInstall(st: State, root: string, now: Situation): Attempt {
    var packages := LockOf(st, root);
    if !now.hasRoots then Attempt(WriteLock(Drop(st, Gone(packages, {}), root), root, []), true)
    else if packages != [] && now.lockFits then
      var installed := InstallEach(now.net, st, root, packages, now.directories);
      if !installed.ok || !now.nativesOk || !Writable(packages) then Attempt(installed.st, false)
      else Attempt(WriteLock(installed.st, root, packages), true)
    else ResolveAndInstall(now.net, st, root, now.tentative, now.outcome, now.nativesOk)
  }

  function RemoveInstalled(st: State, root: string, name: string, version: Option<string>): State {
    if version.Some? then RemoveDependant(st, name, version.value, root)
    else
      var entries := LockMap(LockOf(st, root));
      if name in entries then
        if IsPathSource(entries[name].source) then st else RemoveDependant(st, name, entries[name].version, root)
      else Release(st, name, None, root)
  }

  function Step(st: State, c: Command): State {
    match c
    case InstallVersion(root, net, r) => Install(net, st, root, r).st
    case Resolve(root, now) => ResolveAndInstall(now.net, st, root, now.tentative, now.outcome, now.nativesOk).st
    case InstallProject(root, now) => ProjectInstall(st, root, now).st
    case Remove(root, name, version) => RemoveInstalled(st, root, name, version)
  }

  function Run(st: State, cs: seq<Command>): State
    decreases |cs|
  {
    if cs == [] then st else Run(Step(st, cs[0]), cs[1..])
  }

  predicate GoodSituation(now: Situation) {
    GoodNames(now.tentative) && (now.outcome.Some? ==> GoodPackages(now.outcome.value))
  }

  /** Package names have no `@`, the resolver yields one entry a name, and no extraction
      breaks off before the manifest. */
  predicate GoodCommand(c: Command) {
    match c
    case InstallVersion(_, net, r) => NoAt(r.name) && KeepsManifests(net)
    case Resolve(_, now) => GoodSituation(now) && KeepsManifests(now.net)
    case InstallProject(_, now) => GoodSituation(now) && KeepsManifests(now.net)
    case Remove(_, name, _) => NoAt(name)
  }

  predicate GoodLocks(st: State) {
    forall root | root in st.locks :: GoodPackages(st.locks[root])
  }

  predicate Invariant(st: State) {
    Sound(st) && GoodLocks(st)
  }

  /* ---------- Steps ---------- */

  /** A removal is dropping the one version. */
  lemma RemoveIsDrop(st: State, name: string, version: string, root: string)
    requires Sound(st) && NoAt(name)
    ensures RemoveDependant(st, name, version, root) == Drop(st, {(name, version)}, root)
  {
    SplitKey(name, version);
    hide Split, Key;
    var key := Key(name, version);
    var a, b := RemoveDependant(st, name, version, root), Drop(st, {(name, version)}, root);
    forall k ensures k in a.index <==> k in b.index { CoversOne(name, version, k); }
    forall k | k in a.index ensures a.index[k] == b.index[k] { CoversOne(name, version, k); }
    assert a.index == b.index;
    assert a.disk == b.disk;
  }

  lemma CoversOne(name: string, version: string, k: string)
    requires NoAt(name)
    ensures Covers({(name, version)}, k) <==> k == Key(name, version)
  {
    if Covers({(name, version)}, k) { SplitRoundTrip(k); }
    SplitKey(name, version);
  }

  lemma RequestsCons(p: LockPackage, rest: seq<LockPackage>)
    ensures var rs, first := Requests([p] + rest), Request(p.name, p.version, p.checksum);
      if IsPathSource(p.source) then rs == Requests(rest) else rs == [first] + Requests(rest) && rs[1..] == Requests(rest)
  {
    assert ([p] + rest)[1..] == rest;
  }

  /** A lockfile install stops where a directory is missing; up to there it installs. */
  lemma {:induction false} EachIsAll(net: Net, st: State, root: string, packages: seq<LockPackage>,
                                     directories: set<string>)
    returns (k: nat)
    ensures k <= |packages|
    ensures var a, b := InstallEach(net, st, root, packages, directories), InstallAll(net, st, root, Requests(packages[..k]));
      a.st == b.st && (a.ok ==> k == |packages| && b.ok)
    decreases |packages|
  {
    hide Install;
    k := 0;
    assert packages[..0] == [] && Requests([]) == [];
    if packages != [] {
      var p, rest := packages[0], packages[1..];
      if IsPathSource(p.source) {
        if p.source in directories {
          var j := EachIsAll(net, st, root, rest, directories);
          k := j + 1;
          RequestsCons(p, rest[..j]);
          assert packages[..k] == [p] + rest[..j];
        }
      } else {
        var r := Request(p.name, p.version, p.checksum);
        var first := Install(net, st, root, r);
        if first.ok {
          var j := EachIsAll(net, first.st, root, rest, directories);
          k := j + 1;
        } else {
          k := 1;
        }
        RequestsCons(p, rest[..k - 1]);
        assert packages[..k] == [p] + rest[..k - 1];
      }
    }
  }

  lemma PrefixGood(packages: seq<LockPackage>, k: nat)
    requires GoodPackages(packages) && k <= |packages|
    ensures GoodPackages(packages[..k])
  {
    hide NoAt;
  }

  lemma LockedInstallSound(net: Net, st: State, root: string, packages: seq<LockPackage>, directories: set<string>)
    requires Sound(st) && GoodPackages(packages)
    ensures var a := InstallEach(net, st, root, packages, directories);
      (a.ok || KeepsManifests(net) ==> Sound(a.st)) && OthersKept(st, a.st, root) && a.st.locks == st.locks
      && (a.ok ==> forall p | p in packages && !IsPathSource(p.source) :: InstalledAs(a.st, root, p.name, p.version))
  {
    hide InstallEach, InstallAll, Sound, OthersKept, InstalledAs, GoodPackages, GoodNames, DistinctNames, Requests;
    var a := InstallEach(net, st, root, packages, directories);
    var k := EachIsAll(net, st, root, packages, directories);
    PrefixGood(packages, k);
    RequestsDistinct(packages[..k]);
    RequestsAre(packages[..k]);
    var rs := Requests(packages[..k]);
    InstallAllSound(net, st, root, rs);
    if a.ok {
      assert packages[..k] == packages;
      forall p | p in packages && !IsPathSource(p.source) ensures InstalledAs(a.st, root, p.name, p.version) {
        var r := Request(p.name, p.version, p.checksum);
        assert r in rs;
        var i :| 0 <= i < |rs| && rs[i] == r;
      }
    }
  }

  /** After an install from the lockfile or from scratch, every locked registry package
      is present, and the project is registered on exactly the locked version. */
  lemma ProjectInstallSound(st: State, root: string, now: Situation)
    requires Invariant(st) && GoodSituation(now)
    ensures var a := ProjectInstall(st, root, now);
      (a.ok || KeepsManifests(now.net) ==> Invariant(a.st)) && OthersKept(st, a.st, root)
      && (a.ok ==> LockInstalled(a.st, root))
      && (forall q | q != root :: LockOf(a.st, q) == LockOf(st, q))
  {
    hide InstallEach, ResolveAndInstall, Sound, OthersKept, InstalledAs, GoodPackages, Drop, Gone;
    var packages := LockOf(st, root);
    var a := ProjectInstall(st, root, now);
    assert GoodPackages([]) by { NothingIsGood(); }
    if !now.hasRoots {
      var gone := Gone(packages, {});
      DropSound(st, gone, root);
      LockDoesNotMatter(Drop(st, gone, root), root, []);
      OthersKeptTransitive(st, Drop(st, gone, root), a.st, root);
    } else if packages != [] && now.lockFits {
      LockedInstallSound(now.net, st, root, packages, now.directories);
      var installed := InstallEach(now.net, st, root, packages, now.directories);
      LockDoesNotMatter(installed.st, root, packages);
      OthersKeptTransitive(st, installed.st, WriteLock(installed.st, root, packages), root);
    } else {
      ResolveAndInstallSound(now.net, st, root, now.tentative, now.outcome, now.nativesOk);
    }
  }

  lemma NothingIsGood()
    ensures GoodPackages([])
  {
  }

  lemma RemoveSound(st: State, root: string, name: string, version: Option<string>)
    requires Sound(st) && NoAt(name)
    ensures var next := RemoveInstalled(st, root, name, version);
      Sound(next) && OthersKept(st, next, root) && next.locks == st.locks
  {
    hide RemoveDependant, Drop, Previous, LockMap, Sound, OthersKept;
    OthersKeptReflexive(st, root);
    var entries := LockMap(LockOf(st, root));
    if version.Some? {
      RemoveIsDrop(st, name, version.value, root);
      DropSound(st, {(name, version.value)}, root);
    } else if name in entries {
      RemoveIsDrop(st, name, entries[name].version, root);
      DropSound(st, {(name, entries[name].version)}, root);
    } else {
      DropSound(st, Previous(st, name, None, root), root);
    }
  }

  /** Every command keeps the invariant, the registrations and the lockfiles of all other
      projects. */
  lemma StepSound(st: State, c: Command)
    requires Invariant(st) && GoodCommand(c)
    ensures Invariant(Step(st, c)) && OthersKept(st, Step(st, c), c.root)
    ensures forall q | q != c.root :: LockOf(Step(st, c), q) == LockOf(st, q)
  {
    hide Install, ResolveAndInstall, ProjectInstall, RemoveInstalled, Sound, OthersKept, GoodPackages, LockInstalled;
    match c
    case InstallVersion(root, net, r) => InstallSound(net, st, root, r);
    case Resolve(root, now) => ResolveAndInstallSound(now.net, st, root, now.tentative, now.outcome, now.nativesOk);
    case InstallProject(root, now) => ProjectInstallSound(st, root, now);
    case Remove(root, name, version) => RemoveSound(st, root, name, version);
  }

  /* ---------- Runs ---------- */

  /** In every run the registered versions stay on disk; and a project that takes no part
      in the run keeps its registrations, its lockfile, and its installed packages. */
  lemma {:induction false} RunSound(st: State, cs: seq<Command>, q: string)
    requires Invariant(st) && forall i | 0 <= i < |cs| :: GoodCommand(cs[i])
    ensures Invariant(Run(st, cs))
    ensures (forall i | 0 <= i < |cs| :: cs[i].root != q) ==>
      (forall k :: q in Dependants(Run(st, cs), k) <==> q in Dependants(st, k)) && LockOf(Run(st, cs), q) == LockOf(st, q)
    decreases |cs|
  {
    hide Step, Invariant, Dependants, GoodCommand;
    if cs != [] {
      StepSound(st, cs[0]);
      var rest := cs[1..];
      assert forall i | 0 <= i < |rest| :: rest[i] == cs[i + 1];
      RunSound(Step(st, cs[0]), rest, q);
    }
  }

  /** So a project whose lockfile is installed stays installed, whatever others do. */
  lemma InstalledStaysInstalled(st: State, cs: seq<Command>, q: string)
    requires Invariant(st) && LockInstalled(st, q)
    requires forall i | 0 <= i < |cs| :: GoodCommand(cs[i]) && cs[i].root != q
    ensures LockInstalled(Run(st, cs), q)
  {
    hide Run, Key, Split, GoodCommand;
    RunSound(st, cs, q);
    var last := Run(st, cs);
    forall p | p in LockOf(last, q) && !IsPathSource(p.source) ensures InstalledAs(last, q, p.name, p.version) {
      assert p in LockOf(st, q) && InstalledAs(st, q, p.name, p.version);
      LockedName(st, q, p);
      SplitKey(p.name, p.version);
      assert q in Dependants(st, Key(p.name, p.version));
      assert q in Dependants(last, Key(p.name, p.version));
    }
  }

  lemma LockedName(st: State, root: string, p: LockPackage)
    requires GoodLocks(st) && p in LockOf(st, root)
    ensures NoAt(p.name)
  {
    hide NoAt;
    var packages := LockOf(st, root);
    var i :| 0 <= i < |packages| && packages[i] == p;
  }

  lemma EmptyStore()
    ensures Invariant(State(map[], map[], map[], {}))
  {
  }

  /** From the empty store: whatever the projects do, registered versions are on disk. */
  lemma RunFromEmpty(cs: seq<Command>)
    requires forall i | 0 <= i < |cs| :: GoodCommand(cs[i])
    ensures Invariant(Run(State(map[], map[], map[], {}), cs))
  {
    hide Run, Invariant, GoodCommand;
    EmptyStore();
    RunSound(State(map[], map[], map[], {}), cs, "");
  }
}
