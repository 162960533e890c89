/** What installs and removals come to: when they succeed, what a project ends up with, and
    which versions leave the disk. */
module ProjectInstalls {
  import opened Common
  import opened Store
  import opened PackageStore

  /* ---------- When an install succeeds ---------- */

  /** The version is on disk with a checksum, the expected one if there is one. */
  predicate Cached(st: State, r: Request) {
    var id := (r.name, r.version);
    id in st.disk && st.disk[id] != "" && (r.checksum != "" ==> Lower(st.disk[id]) == Lower(r.checksum))
  }

  /** It is on disk without a checksum, none is expected, and the registry publishes one. */
  predicate Published(net: Net, st: State, r: Request) {
    var id := (r.name, r.version);
    id in st.disk && st.disk[id] == "" && r.checksum == "" && id in net.metas && net.metas[id] != ""
  }

  /** The registry has the whole archive, with the expected checksum if there is one. */
  predicate Delivered(net: Net, r: Request) {
    var id := (r.name, r.version);
    id in net.downloads && id !in net.breaks
    && if r.checksum == "" then net.downloads[id] != "" else Lower(net.downloads[id]) == Lower(r.checksum)
  }

  predicate Obtainable(net: Net, st: State, r: Request) {
    Cached(st, r) || Published(net, st, r)
    || (Delivered(net, r) && ((r.name, r.version) !in st.disk || r.checksum != ""))
  }

  /** An install succeeds exactly when the version is at hand or can be fetched. */
  lemma InstallOkIff(net: Net, st: State, root: string, r: Request)
    ensures Install(net, st, root, r).ok <==> Obtainable(net, st, r)
  {
    hide Lower, Key, Release, AddDependant;
    var id := (r.name, r.version);
    if id in net.downloads && Lower(net.downloads[id]) == Lower(r.checksum) { LowerLength(net.downloads[id], r.checksum); }
  }

  lemma LowerLength(a: string, b: string)
    requires Lower(a) == Lower(b)
    ensures a == "" <==> b == ""
  {
    assert |Lower(a)| == |a| && |Lower(b)| == |b|;
  }

  lemma OthersOnDisk(net: Net, st: State, root: string, r: Request, n: string, v: string)
    requires NoAt(r.name) && n != r.name
    ensures var next := Install(net, st, root, r).st;
      ((n, v) in next.disk <==> (n, v) in st.disk) && ((n, v) in st.disk ==> next.disk[(n, v)] == st.disk[(n, v)])
  {
    hide Lower, Key, Split;
  }

  lemma {:induction false} InstallEachOkIff(net: Net, st: State, root: string, packages: seq<LockPackage>,
                                            directories: set<string>)
    requires GoodPackages(packages)
    ensures InstallEach(net, st, root, packages, directories).ok <==>
      forall p | p in packages :: AtHand(net, st, p, directories)
    decreases |packages|
  {
    hide Install, Obtainable, NoAt;
    if packages != [] {
      var p, rest := packages[0], packages[1..];
      assert forall i | 0 <= i < |rest| :: rest[i] == packages[i + 1];
      assert forall q :: q in packages <==> q == p || q in rest;
      assert AtHand(net, st, p, directories) && (forall q | q in rest :: AtHand(net, st, q, directories))
        <==> forall q | q in packages :: AtHand(net, st, q, directories);
      if IsPathSource(p.source) {
        assert InstallEach(net, st, root, packages, directories) ==
          if p.source in directories then InstallEach(net, st, root, rest, directories) else Attempt(st, false);
        InstallEachOkIff(net, st, root, rest, directories);
      } else {
        var r := Request(p.name, p.version, p.checksum);
        InstallOkIff(net, st, root, r);
        var first := Install(net, st, root, r);
        InstallEachOkIff(net, first.st, root, rest, directories);
        forall q | q in rest ensures AtHand(net, first.st, q, directories) <==> AtHand(net, st, q, directories) {
          var i :| 0 <= i < |rest| && rest[i] == q;
          assert packages[i + 1] == q;
          StillAtHand(net, st, root, r, q, directories);
        }
      }
    }
  }

  /** A locked package can be used: its directory exists, or its version is obtainable. */
  predicate AtHand(net: Net, st: State, p: LockPackage, directories: set<string>) {
    if IsPathSource(p.source) then p.source in directories else Obtainable(net, st, Request(p.name, p.version, p.checksum))
  }

  lemma StillAtHand(net: Net, st: State, root: string, r: Request, q: LockPackage, directories: set<string>)
    requires NoAt(r.name) && q.name != r.name
    ensures AtHand(net, Install(net, st, root, r).st, q, directories) <==> AtHand(net, st, q, directories)
  {
    hide Install, Lower;
    OthersOnDisk(net, st, root, r, q.name, q.version);
  }

  lemma {:induction false} InstallAllIsEach(net: Net, st: State, root: string, packages: seq<LockPackage>, directories: set<string>)
    requires forall p | p in packages && IsPathSource(p.source) :: p.source in directories
    ensures InstallAll(net, st, root, Requests(packages)) == InstallEach(net, st, root, packages, directories)
    decreases |packages|
  {
    hide Install;
    if packages != [] {
      var p, rest := packages[0], packages[1..];
      assert p in packages && forall q | q in rest :: q in packages;
      assert packages == [p] + rest;
      RequestsCons(p, rest);
      if IsPathSource(p.source) {
        InstallAllIsEach(net, st, root, rest, directories);
      } else {
        InstallAllIsEach(net, Install(net, st, root, Request(p.name, p.version, p.checksum)).st, root, rest, directories);
      }
    }
  }

  /** Writing a new selection succeeds exactly when every registry package in it is at hand,
      the native artifacts install, and all checksums are known. */
  lemma InstallPackagesOkIff(net: Net, st: State, root: string, packages: seq<LockPackage>, nativesOk: bool)
    requires GoodPackages(packages)
    ensures InstallPackages(net, st, root, packages, nativesOk).ok <==>
      nativesOk && Writable(packages)
      && forall p | p in packages && !IsPathSource(p.source) :: Obtainable(net, st, Request(p.name, p.version, p.checksum))
  {
    hide InstallAll, InstallEach, Gone, Obtainable, GoodPackages, Requests;
    var dropped := Drop(st, Gone(LockOf(st, root), PackageNames(packages)), root);
    var directories := set p | p in packages :: p.source;
    InstallAllIsEach(net, dropped, root, packages, directories);
    InstallEachOkIff(net, dropped, root, packages, directories);
    forall p | p in packages && !IsPathSource(p.source)
      ensures AtHand(net, dropped, p, directories) <==> Obtainable(net, st, Request(p.name, p.version, p.checksum))
    {
      NamedStaysOnDisk(st, root, packages, p);
      SameObtainable(net, dropped, st, Request(p.name, p.version, p.checksum));
    }
  }

  lemma NamedStaysOnDisk(st: State, root: string, packages: seq<LockPackage>, p: LockPackage)
    requires p in packages
    ensures var dropped, id := Drop(st, Gone(LockOf(st, root), PackageNames(packages)), root), (p.name, p.version);
      (id in dropped.disk <==> id in st.disk) && (id in st.disk ==> dropped.disk[id] == st.disk[id])
  {
    hide Key, Split, LockMap;
    assert p.name in PackageNames(packages);
  }

  lemma SameObtainable(net: Net, a: State, b: State, r: Request)
    requires var id := (r.name, r.version); (id in a.disk <==> id in b.disk) && (id in b.disk ==> a.disk[id] == b.disk[id])
    ensures Obtainable(net, a, r) <==> Obtainable(net, b, r)
  {
    hide Lower;
  }

  /* ---------- Installing a project ---------- */

  predicate FromLockfile(st: State, root: string, now: Situation) {
    now.hasRoots && LockOf(st, root) != [] && now.lockFits
  }

  /** A lockfile that fits is what gets installed: the resolver is not asked, the lockfile
      stays whether or not the install succeeds, and it succeeds exactly when all of it is
      at hand. After success the project is registered on exactly the locked versions. */
  lemma LockfileIsInstalled(st: State, root: string, now: Situation, tentative: seq<Request>,
                            outcome: Option<seq<LockPackage>>)
    requires Sound(st) && GoodPackages(LockOf(st, root)) && FromLockfile(st, root, now)
    ensures ProjectInstall(st, root, now.(tentative := tentative, outcome := outcome)) == ProjectInstall(st, root, now)
    ensures var a := ProjectInstall(st, root, now);
      (forall q :: LockOf(a.st, q) == LockOf(st, q))
      && (a.ok <==> now.nativesOk && Writable(LockOf(st, root))
                    && forall p | p in LockOf(st, root) :: AtHand(now.net, st, p, now.directories))
      && (a.ok ==> forall p | p in LockOf(st, root) && !IsPathSource(p.source) ::
            InstalledAs(a.st, root, p.name, p.version))
  {
    hide InstallEach, Sound, InstalledAs, GoodPackages, AtHand, OthersKept, ResolveAndInstall;
    var packages := LockOf(st, root);
    InstallEachOkIff(now.net, st, root, packages, now.directories);
    LockedInstallSound(now.net, st, root, packages, now.directories);
    LockDoesNotMatter(InstallEach(now.net, st, root, packages, now.directories).st, root, packages);
  }

  /** With its packages installed already, it needs no network and changes nothing. */
  lemma ReinstallChangesNothing(st: State, root: string, now: Situation)
    requires Sound(st) && GoodPackages(LockOf(st, root)) && FromLockfile(st, root, now) && LockInstalled(st, root)
    requires forall p | p in LockOf(st, root) ::
        if IsPathSource(p.source) then p.source in now.directories
        else Cached(st, Request(p.name, p.version, p.checksum))
    requires now.nativesOk && Writable(LockOf(st, root))
    ensures ProjectInstall(st, root, now) == Attempt(st, true)
  {
    hide InstallEach, Sound, InstalledAs, GoodPackages, Cached;
    var packages := LockOf(st, root);
    forall p | p in packages && !IsPathSource(p.source) ensures NoAt(p.name) { NamesGood(packages, p); }
    CachedInstallsAreIdle(now.net, st, root, packages, now.directories);
    assert root in st.locks;
    assert st.locks[root := packages] == st.locks;
  }

  lemma {:induction false} CachedInstallsAreIdle(net: Net, st: State, root: string, packages: seq<LockPackage>,
                                                 directories: set<string>)
    requires Sound(st)
    requires forall p | p in packages ::
        if IsPathSource(p.source) then p.source in directories
        else NoAt(p.name) && InstalledAs(st, root, p.name, p.version)
             && Cached(st, Request(p.name, p.version, p.checksum))
    ensures InstallEach(net, st, root, packages, directories) == Attempt(st, true)
    decreases |packages|
  {
    hide Install, Sound, InstalledAs, Cached, NoAt;
    if packages != [] {
      var p, rest := packages[0], packages[1..];
      assert p in packages && forall q | q in rest :: q in packages;
      if !IsPathSource(p.source) { CachedInstallIsIdle(net, st, root, Request(p.name, p.version, p.checksum)); }
      CachedInstallsAreIdle(net, st, root, rest, directories);
    }
  }

  lemma CachedInstallIsIdle(net: Net, st: State, root: string, r: Request)
    requires Sound(st) && NoAt(r.name) && InstalledAs(st, root, r.name, r.version) && Cached(st, r)
    ensures Install(net, st, root, r) == Attempt(st, true)
  {
    hide Lower, Split, Key, Drop;
    assert Fetch(net, st, r.name, r.version, r.checksum) == (st, Fetch(net, st, r.name, r.version, r.checksum).1);
    var pairs := Previous(st, r.name, Some(r.version), root);
    forall k | k in st.index && '@' in k && Split(k).0 == r.name && root in st.index[k] ensures Split(k).1 == r.version {
      SplitRoundTrip(k);
      assert k == Key(r.name, Split(k).1) && root in Dependants(st, k);
    }
    assert pairs == {};
    NothingDropped(st, root);
    var key := Key(r.name, r.version);
    assert root in Dependants(st, key);
    assert st.index[key] + {root} == st.index[key] && st.index[key := st.index[key]] == st.index;
  }

  lemma NothingDropped(st: State, root: string)
    requires Sound(st)
    ensures Drop(st, {}, root) == st
  {
    hide Split, Key;
    assert forall k | k in st.index :: !Covers({}, k);
    assert DropIndex(st.index, {}, root) == st.index;
    assert DropDisk(st, {}, root) == st.disk;
  }

  /** Without dependencies the lockfile becomes empty, and exactly the registry packages of
      the old one are unregistered. */
  lemma NoRootsUninstalls(st: State, root: string, now: Situation)
    requires Sound(st) && GoodPackages(LockOf(st, root)) && !now.hasRoots
    ensures var a := ProjectInstall(st, root, now);
      a.ok && LockOf(a.st, root) == []
      && (forall p | p in LockOf(st, root) && !IsPathSource(p.source) :: root !in Dependants(a.st, Key(p.name, p.version)))
      && forall n, v | NoAt(n) && !(exists p :: p in LockOf(st, root) && !IsPathSource(p.source) && (p.name, p.version) == (n, v)) ::
           Dependants(a.st, Key(n, v)) == Dependants(st, Key(n, v))
  {
    hide Drop, Sound, Split, Key, Covers, LockMap, GoodPackages;
    var packages := LockOf(st, root);
    var gone := Gone(packages, {});
    var a := ProjectInstall(st, root, now);
    forall n, v | NoAt(n) ensures Dependants(a.st, Key(n, v)) ==
        if (n, v) in gone then Dependants(st, Key(n, v)) - {root} else Dependants(st, Key(n, v))
    {
      SplitKey(n, v);
      DropDependants(st, gone, root, Key(n, v));
      assert Covers(gone, Key(n, v)) <==> (n, v) in gone by { CoversKey(gone, n, v); }
    }
    forall p | p in packages && !IsPathSource(p.source) ensures root !in Dependants(a.st, Key(p.name, p.version)) {
      NamesGood(packages, p);
      LockMapOf(packages, p);
    }
    GoneAreLocked(packages);
  }

  lemma CoversKey(pairs: set<(string, string)>, n: string, v: string)
    requires NoAt(n)
    ensures Covers(pairs, Key(n, v)) <==> (n, v) in pairs
  {
    SplitKey(n, v);
  }

  lemma GoneAreLocked(packages: seq<LockPackage>)
    ensures forall id | id in Gone(packages, {}) ::
        exists p :: p in packages && !IsPathSource(p.source) && (p.name, p.version) == id
  {
    LockMapValues(packages);
  }

  lemma {:induction false} LockMapValues(packages: seq<LockPackage>)
    ensures forall n | n in LockMap(packages) :: LockMap(packages)[n] in packages && LockMap(packages)[n].name == n
    decreases |packages|
  {
    if packages != [] { LockMapValues(packages[..|packages| - 1]); }
  }

  /** In all other cases the project is resolved: after success its lockfile is what the
      resolver selected, and after a failure it is the old one. */
  lemma OtherwiseResolved(st: State, root: string, now: Situation)
    requires Sound(st) && GoodSituation(now) && now.hasRoots && !FromLockfile(st, root, now)
    ensures var a := ProjectInstall(st, root, now);
      if a.ok then now.outcome == Some(LockOf(a.st, root)) else LockOf(a.st, root) == LockOf(st, root)
  {
    hide ResolveAndInstall, Sound, GoodPackages, LockInstalled, OthersKept;
    ResolveAndInstallSound(now.net, st, root, now.tentative, now.outcome, now.nativesOk);
  }

  /* ---------- What leaves the disk ---------- */

  /** Nobody but the project needs the version. */
  predicate OnlyNeededBy(st: State, root: string, n: string, v: string) {
    Dependants(st, Key(n, v)) <= {root}
  }

  /** Collecting a version frees it exactly when nobody depends on it, and touches nothing
      else. */
  lemma GcIff(st: State, name: string, version: string)
    ensures var next := Gc(st, name, version);
      next.index == st.index && next.locks == st.locks
      && forall n, v :: (n, v) in next.disk <==>
           (n, v) in st.disk && ((n, v) == (name, version) ==> Dependants(st, Key(n, v)) != {})
  {
    hide Key;
  }

  /** A successful install frees exactly the other versions of the package that the project
      was registered on and nobody else. */
  lemma InstallFreesIff(net: Net, st: State, root: string, r: Request, n: string, v: string)
    requires Sound(st) && NoAt(r.name) && NoAt(n) && Install(net, st, root, r).ok && (n, v) != (r.name, r.version)
    ensures (n, v) in Install(net, st, root, r).st.disk <==>
      (n, v) in st.disk && !(n == r.name && root in Dependants(st, Key(n, v)) && OnlyNeededBy(st, root, n, v))
  {
    hide Lower, Split, Key;
    var f := Fetch(net, st, r.name, r.version, r.checksum);
    SplitKey(n, v);
    var pairs := Previous(f.0, r.name, Some(r.version), root);
    assert (n, v) in pairs <==> n == r.name && root in Dependants(st, Key(n, v)) by {
      if (n, v) in pairs {
        var k :| k in st.index && '@' in k && Split(k) == (n, v) && root in st.index[k];
        SplitRoundTrip(k);
      }
    }
  }

  /** The versions that a removal takes from the project. */
  ghost predicate Removed(st: State, root: string, name: string, version: Option<string>, v: string) {
    var entries := LockMap(LockOf(st, root));
    if version.Some? then v == version.value
    else if name in entries then !IsPathSource(entries[name].source) && v == entries[name].version
    else root in Dependants(st, Key(name, v))
  }

  /** A removal unregisters the project from exactly these versions of the package, and the
      last project to leave one frees it. */
  lemma RemoveIff(st: State, root: string, name: string, version: Option<string>, n: string, v: string)
    requires Sound(st) && NoAt(name) && NoAt(n)
    ensures var next, hit := RemoveInstalled(st, root, name, version), n == name && Removed(st, root, name, version, v);
      Dependants(next, Key(n, v)) == (if hit then Dependants(st, Key(n, v)) - {root} else Dependants(st, Key(n, v)))
      && ((n, v) in next.disk <==> (n, v) in st.disk && !(hit && OnlyNeededBy(st, root, n, v)))
  {
    hide RemoveDependant, Drop, Previous, LockMap, Sound, Split, Key, Covers;
    var entries := LockMap(LockOf(st, root));
    if version.Some? {
      RemoveIsDrop(st, name, version.value, root);
      DropIff(st, {(name, version.value)}, root, n, v);
    } else if name in entries {
      RemoveIsDrop(st, name, entries[name].version, root);
      DropIff(st, {(name, entries[name].version)}, root, n, v);
    } else {
      DropIff(st, Previous(st, name, None, root), root, n, v);
      PreviousIff(st, name, root, n, v);
    }
  }

  lemma DropIff(st: State, pairs: set<(string, string)>, root: string, n: string, v: string)
    requires NoAt(n)
    ensures var next := Drop(st, pairs, root);
      Dependants(next, Key(n, v)) ==
        (if (n, v) in pairs then Dependants(st, Key(n, v)) - {root} else Dependants(st, Key(n, v)))
      && ((n, v) in next.disk <==> (n, v) in st.disk && !((n, v) in pairs && OnlyNeededBy(st, root, n, v)))
  {
    hide Split, Key;
    CoversKey(pairs, n, v);
    DropDependants(st, pairs, root, Key(n, v));
  }

  lemma PreviousIff(st: State, name: string, root: string, n: string, v: string)
    requires NoAt(n)
    ensures (n, v) in Previous(st, name, None, root) <==> n == name && root in Dependants(st, Key(n, v))
  {
    hide Split, Key;
    SplitKey(n, v);
    if (n, v) in Previous(st, name, None, root) {
      var k :| k in st.index && '@' in k && Split(k) == (n, v) && root in st.index[k];
      SplitRoundTrip(k);
    }
  }
}
