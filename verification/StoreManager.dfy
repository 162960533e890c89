/** The store's operations as they run: each loads the index, edits it, saves it, and
    deletes or extracts directories, step by step. */
module StoreManager {
  import opened Common
  import opened Store
  import opened PackageStore

  lemma DropIndexTwice(st: State, a: set<(string, string)>, b: set<(string, string)>, root: string)
    ensures DropIndex(DropIndex(st.index, a, root), b, root) == DropIndex(st.index, a + b, root)
  {
    hide Split;
    var once, both := DropIndex(st.index, a, root), DropIndex(st.index, a + b, root);
    var twice := DropIndex(once, b, root);
    forall k ensures k in twice <==> k in both {
      assert Covers(a + b, k) <==> Covers(a, k) || Covers(b, k);
      if k in once { assert once[k] <= {root} <==> st.index[k] <= {root}; }
    }
    forall k | k in both ensures twice[k] == both[k] {
      assert Covers(a + b, k) <==> Covers(a, k) || Covers(b, k);
    }
  }

  lemma DropTwice(st: State, a: set<(string, string)>, b: set<(string, string)>, root: string)
    requires Sound(st)
    ensures Drop(Drop(st, a, root), b, root) == Drop(st, a + b, root)
  {
    hide Split, Key;
    var once, both := Drop(st, a, root), Drop(st, a + b, root);
    DropIndexTwice(st, a, b, root);
    forall v | v in st.disk
      ensures Dependants(once, Key(v.0, v.1)) <= {root} <==> Dependants(st, Key(v.0, v.1)) <= {root}
    {
      DropDependants(st, a, root, Key(v.0, v.1));
    }
    assert DropDisk(once, b, root) == both.disk;
  }

  /** One more removal after some have been made. */
  lemma DropStep(st: State, done: set<(string, string)>, name: string, version: string, root: string)
    requires Sound(st) && NoAt(name)
    ensures RemoveDependant(Drop(st, done, root), name, version, root) == Drop(st, done + {(name, version)}, root)
  {
    hide Drop, RemoveDependant, Sound;
    DropSound(st, done, root);
    RemoveIsDrop(Drop(st, done, root), name, version, root);
    DropTwice(st, done, {(name, version)}, root);
  }

  lemma DropNothing(st: State, root: string)
    ensures Drop(st, {}, root) == st
  {
    hide Split, Key;
    assert DropIndex(st.index, {}, root) == st.index;
    assert DropDisk(st, {}, root) == st.disk;
  }

  /** The part of `Previous` found under these keys. */
  function PreviousUnder(st: State, keys: set<string>, name: string, keep: Option<string>,
                         root: string): set<(string, string)> {
    set k | k in keys && k in st.index && '@' in k && Split(k).0 == name && Some(Split(k).1) != keep && root in st.index[k] ::
      Split(k)
  }

  lemma PreviousGrows(st: State, keys: set<string>, k: string, name: string, keep: Option<string>, root: string)
    requires NoAt(name) && k in st.index && k !in keys
    ensures var before, after := PreviousUnder(st, keys, name, keep, root), PreviousUnder(st, keys + {k}, name, keep, root);
      if name + "@" <= k && Some(k[|name| + 1..]) != keep && root in st.index[k]
      then after == before + {(name, k[|name| + 1..])} else after == before
  {
    PrefixIsName(name, k);
    hide Split;
  }

  class Manager {
    var index: map<string, set<string>>
    var disk: map<(string, string), string>
    var locks: map<string, seq<LockPackage>>
    /** The versions whose last extraction broke off; nothing records this. */
    var cut: set<(string, string)>

    constructor ()
      ensures Now() == State(map[], map[], map[], {})
    {
      index, disk, locks, cut := map[], map[], map[], {};
    }

    function Now(): State
      reads this
    {
      State(index, disk, locks, cut)
    }

    method AddDependant(name: string, version: string, root: string)
      modifies this
      ensures Now() == Store.AddDependant(old(Now()), name, version, root)
    {
      var key := Key(name, version);
      var list := if key in index then index[key] else {};
      index := index[key := list + {root}];
    }

    method GcPackageVersion(name: string, version: string)
      modifies this
      ensures Now() == Gc(old(Now()), name, version)
    {
      var key := Key(name, version);
      if key in index && index[key] != {} { return; }
      disk := disk - {(name, version)};
    }

    method RemoveDependant(name: string, version: string, root: string)
      modifies this
      ensures Now() == Store.RemoveDependant(old(Now()), name, version, root)
    {
      var key := Key(name, version);
      var list := (if key in index then index[key] else {}) - {root};
      if list == {} {
        index := index - {key};
        GcPackageVersion(name, version);
      } else {
        index := index[key := list];
      }
    }

    /** Works through the keys of the index as it was at the start. */
    method ReleasePreviousVersion(name: string, keep: Option<string>, root: string)
      requires Sound(Now()) && NoAt(name)
      modifies this
      ensures Now() == Release(old(Now()), name, keep, root)
    {
      hide Drop, Store.RemoveDependant, Sound, PreviousUnder, Split;
      ghost var st := Now();
      var snapshot := index;
      var left := snapshot.Keys;
      StartOfRelease(st, name, keep, root);
      while left != {}
        invariant left <= snapshot.Keys
        invariant Now() == Drop(st, PreviousUnder(st, snapshot.Keys - left, name, keep, root), root)
        decreases |left|
      {
        var key :| key in left;
        PreviousGrows(st, snapshot.Keys - left, key, name, keep, root);
        assert snapshot.Keys - (left - {key}) == (snapshot.Keys - left) + {key};
        ghost var done := PreviousUnder(st, snapshot.Keys - left, name, keep, root);
        left := left - {key};
        if name + "@" <= key {
          var version := key[|name| + 1..];
          if keep != Some(version) && root in snapshot[key] {
            DropStep(st, done, name, version, root);
            RemoveDependant(name, version, root);
          }
        }
      }
      EndOfRelease(st, name, keep, root);
      assert snapshot.Keys - {} == snapshot.Keys;
    }

    /** Fails before it deletes anything, or replaces the version's directory; when the
        extraction breaks off, the old directory is gone. */
    method DownloadAndExtract(net: Net, name: string, version: string, expected: string) returns (r: Option<string>)
      modifies this
      ensures (Now(), r) == Download(net, old(Now()), name, version, expected)
    {
      if (name, version) !in net.downloads { return None; }
      var checksum := net.downloads[(name, version)];
      if expected != "" && Lower(expected) != Lower(checksum) { return None; }
      ghost var before := disk;
      disk := disk - {(name, version)};
      if (name, version) in net.breaks {
        cut := cut + {(name, version)};
        if net.breaks[(name, version)] {
          disk := disk[(name, version) := ""];
          assert disk == before[(name, version) := ""];
        }
        return None;
      }
      disk, cut := disk[(name, version) := checksum], cut - {(name, version)};
      assert disk == before[(name, version) := checksum];
      return Some(checksum);
    }

    method InstallPackageVersion(net: Net, root: string, name: string, version: string, expected: string)
      returns (ok: bool)
      requires Sound(Now()) && NoAt(name)
      modifies this
      ensures Attempt(Now(), ok) == Install(net, old(Now()), root, Request(name, version, expected))
    {
      hide Lower, Split, Drop, Sound, Previous;
      FetchSound(net, Now(), name, version, expected);
      var checksum := expected;
      if (name, version) in disk {
        var sidecar := disk[(name, version)];
        if expected != "" {
          if sidecar == "" || Lower(sidecar) != Lower(expected) {
            var downloaded := DownloadAndExtract(net, name, version, expected);
            if downloaded.None? { return false; }
          }
        } else if sidecar != "" {
          checksum := sidecar;
        } else {
          if (name, version) !in net.metas { return false; }
          checksum := net.metas[(name, version)];
          disk := disk[(name, version) := checksum];
        }
      } else {
        var downloaded := DownloadAndExtract(net, name, version, expected);
        if downloaded.None? { return false; }
        checksum := downloaded.value;
      }
      if checksum == "" { return false; }
      ReleasePreviousVersion(name, Some(version), root);
      AddDependant(name, version, root);
      return true;
    }

    /** Unregisters the project from the old lockfile's registry packages that are gone. */
    method RemoveGone(root: string, previous: map<string, LockPackage>, next: set<string>)
      requires Sound(Now()) && previous == LockMap(LockOf(Now(), root)) && forall n | n in previous :: NoAt(n)
      modifies this
      ensures Now() == Drop(old(Now()), Gone(LockOf(old(Now()), root), next), root)
    {
      hide Drop, Store.RemoveDependant, Sound, LockMap;
      ghost var st := Now();
      DropNothing(st, root);
      assert GoneAmong(previous, previous.Keys - previous.Keys, next) == {};
      var left := previous.Keys;
      while left != {}
        invariant left <= previous.Keys
        invariant Now() == Drop(st, GoneAmong(previous, previous.Keys - left, next), root)
        decreases |left|
      {
        var n :| n in left;
        ghost var done := GoneAmong(previous, previous.Keys - left, next);
        left := left - {n};
        if n !in next && !IsPathSource(previous[n].source) {
          DropStep(st, done, n, previous[n].version, root);
          RemoveDependant(n, previous[n].version, root);
          assert GoneAmong(previous, previous.Keys - left, next) == done + {(n, previous[n].version)};
        } else {
          assert GoneAmong(previous, previous.Keys - left, next) == done;
        }
      }
      assert GoneAmong(previous, previous.Keys, next) == Gone(LockOf(st, root), next);
      assert previous.Keys - {} == previous.Keys;
    }

    method InstallEvery(net: Net, root: string, requests: seq<Request>) returns (ok: bool)
      requires Sound(Now()) && GoodNames(requests)
      modifies this
      ensures Attempt(Now(), ok) == InstallAll(net, old(Now()), root, requests)
    {
      hide Install, Sound, NoAt;
      for i := 0 to |requests|
        invariant Sound(Now())
        invariant InstallAll(net, Now(), root, requests[i..]) == InstallAll(net, old(Now()), root, requests)
      {
        assert requests[i..][0] == requests[i] && requests[i..][1..] == requests[i + 1..];
        var r := requests[i];
        InstallSound(net, Now(), root, r);
        ok := InstallPackageVersion(net, root, r.name, r.version, r.checksum);
        if !ok { return; }
      }
      return true;
    }

    /** Resolves, drops what the old lockfile had and the new one has not, installs each
        package, and writes the lockfile last. */
    method ResolveAndInstall(root: string, now: Situation) returns (ok: bool)
      requires Invariant(Now()) && GoodSituation(now)
      modifies this
      ensures Attempt(Now(), ok)
           == Store.ResolveAndInstall(now.net, old(Now()), root, now.tentative, now.outcome, now.nativesOk)
    {
      hide InstallAll, Drop, Gone, Sound, Requests, NoAt, DistinctNames;
      InstallAllSound(now.net, Now(), root, now.tentative);
      ok := InstallEvery(now.net, root, now.tentative);
      if !ok || now.outcome.None? { return false; }
      var packages := now.outcome.value;
      ghost var st := Now();
      var previous := LockMap(LockOf(Now(), root));
      LockNames(st, root);
      DropSound(st, Gone(LockOf(st, root), PackageNames(packages)), root);
      RemoveGone(root, previous, PackageNames(packages));
      RequestsDistinct(packages);
      ok := InstallEvery(now.net, root, Requests(packages));
      if !ok || !now.nativesOk || !Writable(packages) { return false; }
      locks := locks[root := packages];
      return true;
    }

    method InstallLocked(net: Net, root: string, packages: seq<LockPackage>, directories: set<string>) returns (ok: bool)
      requires Sound(Now()) && forall i | 0 <= i < |packages| :: NoAt(packages[i].name)
      modifies this
      ensures Attempt(Now(), ok) == InstallEach(net, old(Now()), root, packages, directories)
    {
      hide Install, Sound, NoAt;
      for i := 0 to |packages|
        invariant Sound(Now())
        invariant InstallEach(net, Now(), root, packages[i..], directories)
               == InstallEach(net, old(Now()), root, packages, directories)
      {
        assert packages[i..][0] == packages[i] && packages[i..][1..] == packages[i + 1..];
        var pkg := packages[i];
        if IsPathSource(pkg.source) {
          if pkg.source !in directories { return false; }
          continue;
        }
        InstallSound(net, Now(), root, Request(pkg.name, pkg.version, pkg.checksum));
        ok := InstallPackageVersion(net, root, pkg.name, pkg.version, pkg.checksum);
        if !ok { return; }
      }
      return true;
    }

    method InstallProjectDependencies(root: string, now: Situation) returns (ok: bool)
      requires Invariant(Now()) && GoodSituation(now)
      modifies this
      ensures Attempt(Now(), ok) == ProjectInstall(old(Now()), root, now)
      ensures (ok || KeepsManifests(now.net) ==> Invariant(Now())) && (ok ==> LockInstalled(Now(), root))
    {
      hide InstallEach, Drop, Gone, Sound, LockMap, Store.ResolveAndInstall, LockInstalled, OthersKept, GoodPackages;
      ProjectInstallSound(Now(), root, now);
      var packages := LockOf(Now(), root);
      LockNames(Now(), root);
      if !now.hasRoots {
        RemoveGone(root, LockMap(packages), {});
        locks := locks[root := []];
        return true;
      }
      if packages != [] && now.lockFits {
        LockEntries(Now(), root);
        ok := InstallLocked(now.net, root, packages, now.directories);
        if !ok || !now.nativesOk || !Writable(packages) { return false; }
        locks := locks[root := packages];
        return true;
      }
      ok := ResolveAndInstall(root, now);
    }

    method RemoveInstalledPackage(root: string, name: string, version: Option<string>)
      requires Sound(Now()) && NoAt(name)
      modifies this
      ensures Now() == RemoveInstalled(old(Now()), root, name, version)
    {
      hide LockMap, Drop, Store.RemoveDependant, Sound;
      if version.Some? {
        RemoveDependant(name, version.value, root);
        return;
      }
      var entries := LockMap(LockOf(Now(), root));
      if name in entries {
        if !IsPathSource(entries[name].source) { RemoveDependant(name, entries[name].version, root); }
        return;
      }
      ReleasePreviousVersion(name, None, root);
    }
  }

  function GoneAmong(previous: map<string, LockPackage>, names: set<string>, next: set<string>): set<(string, string)> {
    set n | n in names && n in previous && n !in next && !IsPathSource(previous[n].source) :: (n, previous[n].version)
  }

  lemma StartOfRelease(st: State, name: string, keep: Option<string>, root: string)
    ensures Drop(st, PreviousUnder(st, st.index.Keys - st.index.Keys, name, keep, root), root) == st
  {
    hide Split, Drop;
    assert PreviousUnder(st, st.index.Keys - st.index.Keys, name, keep, root) == {};
    DropNothing(st, root);
  }

  lemma EndOfRelease(st: State, name: string, keep: Option<string>, root: string)
    ensures PreviousUnder(st, st.index.Keys, name, keep, root) == Previous(st, name, keep, root)
  {
    hide Split;
  }

  lemma {:induction false} LockMapNames(packages: seq<LockPackage>)
    ensures forall n | n in LockMap(packages) :: exists i | 0 <= i < |packages| :: packages[i].name == n
    decreases |packages|
  {
    if packages != [] {
      var rest := packages[..|packages| - 1];
      LockMapNames(rest);
      forall n | n in LockMap(packages) ensures exists i | 0 <= i < |packages| :: packages[i].name == n {
        if n != packages[|packages| - 1].name {
          assert n in LockMap(rest);
          var i :| 0 <= i < |rest| && rest[i].name == n;
          assert packages[i].name == n;
        }
      }
    }
  }

  lemma LockNames(st: State, root: string)
    requires GoodLocks(st)
    ensures forall n | n in LockMap(LockOf(st, root)) :: NoAt(n)
  {
    hide NoAt, LockMap;
    LockMapNames(LockOf(st, root));
  }

  lemma LockEntries(st: State, root: string)
    requires GoodLocks(st)
    ensures forall i | 0 <= i < |LockOf(st, root)| :: NoAt(LockOf(st, root)[i].name)
  {
    hide NoAt;
  }
}
