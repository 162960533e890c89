/** The package store shared by all projects of a machine: which versions are on disk and
    which projects depend on them, as functions from one state to the next. */
module Store {
  import opened Common

  datatype LockPackage = LockPackage(name: string, version: string, checksum: string, source: string)

  /** `index` maps `name@version` to the projects registered on it; `disk` maps each
      version with a manifest to its recorded checksum, "" when none is recorded; `cut`
      holds the versions whose last extraction broke off. */
  datatype State = State(index: map<string, set<string>>, disk: map<(string, string), string>,
                         locks: map<string, seq<LockPackage>>, cut: set<(string, string)>)

  /** What the registry answers: archives that can be fetched and published checksums. An
      archive in `breaks` does not extract to the end; it tells whether the manifest is
      written by then. */
  datatype Net = Net(downloads: map<(string, string), string>, metas: map<(string, string), string>,
                     breaks: map<(string, string), bool>)

  datatype Request = Request(name: string, version: string, checksum: string)

  datatype Attempt = Attempt(st: State, ok: bool)

  /* ---------- Keys ---------- */

  function Key(name: string, version: string): string {
    name + "@" + version
  }

  predicate NoAt(name: string) {
    '@' !in name
  }

  /** The name and the version around the first `@`. */
  function Split(key: string): (string, string) {
    if key == "" then ("", "")
    else if key[0] == '@' then ("", key[1..])
    else
      var rest := Split(key[1..]);
      ([key[0]] + rest.0, rest.1)
  }

  lemma {:induction false} SplitKey(name: string, version: string)
    requires NoAt(name)
    ensures '@' in Key(name, version) && Split(Key(name, version)) == (name, version)
  {
    var key := Key(name, version);
    assert key[|name|] == '@';
    if name == "" {
      assert key[1..] == version;
    } else {
      assert key[0] == name[0] && key[1..] == Key(name[1..], version);
      SplitKey(name[1..], version);
      assert name == [name[0]] + name[1..];
    }
  }

  lemma {:induction false} SplitRoundTrip(key: string)
    requires '@' in key
    ensures NoAt(Split(key).0) && Key(Split(key).0, Split(key).1) == key
  {
    if key[0] == '@' {
      assert Key("", key[1..]) == "@" + key[1..] == key;
    } else {
      assert '@' in key[1..];
      SplitRoundTrip(key[1..]);
      var rest := Split(key[1..]);
      assert Key([key[0]] + rest.0, rest.1) == [key[0]] + Key(rest.0, rest.1);
      assert key == [key[0]] + key[1..];
    }
  }

  /** For names without `@`, the keys that start with `name@` are those of the name. */
  lemma PrefixIsName(name: string, key: string)
    requires NoAt(name)
    ensures name + "@" <= key <==> '@' in key && Split(key).0 == name
    ensures name + "@" <= key ==> Split(key).1 == key[|name| + 1..]
  {
    if name + "@" <= key {
      assert key == Key(name, key[|name| + 1..]);
      SplitKey(name, key[|name| + 1..]);
    }
    if '@' in key && Split(key).0 == name {
      SplitRoundTrip(key);
      assert name + "@" <= Key(name, Split(key).1);
    }
  }

  /* ---------- Registrations ---------- */

  function Dependants(st: State, key: string): set<string> {
    if key in st.index then st.index[key] else {}
  }

  function SetDependants(st: State, key: string, deps: set<string>): State {
    st.(index := if deps == {} then st.index - {key} else st.index[key := deps])
  }

  function AddDependant(st: State, name: string, version: string, root: string): State {
    SetDependants(st, Key(name, version), Dependants(st, Key(name, version)) + {root})
  }

  function Gc(st: State, name: string, version: string): State {
    if Dependants(st, Key(name, version)) != {} then st else st.(disk := st.disk - {(name, version)})
  }

  function RemoveDependant(st: State, name: string, version: string, root: string): State {
    var deps := Dependants(st, Key(name, version)) - {root};
    var next := SetDependants(st, Key(name, version), deps);
    if deps == {} then Gc(next, name, version) else next
  }

  /** Unregisters the project from all these versions at once. */
  function Drop(st: State, pairs: set<(string, string)>, root: string): State {
    st.(index := DropIndex(st.index, pairs, root), disk := DropDisk(st, pairs, root))
  }

  predicate Covers(pairs: set<(string, string)>, key: string) {
    '@' in key && Split(key) in pairs
  }

  function DropIndex(index: map<string, set<string>>, pairs: set<(string, string)>,
                     root: string): map<string, set<string>> {
    map k | k in index && !(Covers(pairs, k) && index[k] <= {root}) ::
      if Covers(pairs, k) then index[k] - {root} else index[k]
  }

  function DropDisk(st: State, pairs: set<(string, string)>, root: string): map<(string, string), string> {
    map v | v in st.disk && !(v in pairs && Dependants(st, Key(v.0, v.1)) <= {root}) :: st.disk[v]
  }

  /** The versions of a name, other than the one to keep, a project is registered on. */
  function Previous(st: State, name: string, keep: Option<string>, root: string): set<(string, string)> {
    set k | k in st.index && '@' in k && Split(k).0 == name && Some(Split(k).1) != keep && root in st.index[k] :: Split(k)
  }

  function Release(st: State, name: string, keep: Option<string>, root: string): State {
    Drop(st, Previous(st, name, keep, root), root)
  }

  /* ---------- Fetching and installing ---------- */

  function Lower(s: string): string {
    seq(|s|, i requires 0 <= i < |s| => if 'A' <= s[i] <= 'Z' then s[i] - 'A' + 'a' else s[i])
  }

  /** Downloads and extracts a version; "" as the expected checksum is none. */
  function Download(net: Net, st: State, name: string, version: string, expected: string): (State, Option<string>) {
    var id := (name, version);
    if id !in net.downloads then (st, None)
    else if expected != "" && Lower(expected) != Lower(net.downloads[id]) then (st, None)
    else if id in net.breaks then
      (st.(disk := if net.breaks[id] then st.disk[id := ""] else st.disk - {id}, cut := st.cut + {id}), None)
    else (st.(disk := st.disk[id := net.downloads[id]], cut := st.cut - {id}), Some(net.downloads[id]))
  }

  /** The directory of the version is replaced. */
  predicate Refetched(net: Net, st: State, name: string, version: string, expected: string) {
    var id := (name, version);
    (id !in st.disk || (expected != "" && (st.disk[id] == "" || Lower(st.disk[id]) != Lower(expected))))
    && id in net.downloads && (expected != "" ==> Lower(expected) == Lower(net.downloads[id]))
  }

  /** No extraction breaks off before the manifest is written. */
  predicate KeepsManifests(net: Net) {
    forall id | id in net.breaks :: net.breaks[id]
  }

  /** The version counts as installed although not all of it is there. */
  predicate Half(st: State, name: string, version: string) {
    (name, version) in st.disk && (name, version) in st.cut
  }

  /** Makes the version present and finds its checksum. */
  function Fetch(net: Net, st: State, name: string, version: string, expected: string): (State, Option<string>) {
    var id := (name, version);
    if id !in st.disk then Download(net, st, name, version, expected)
    else if expected != "" then
      if st.disk[id] != "" && Lower(st.disk[id]) == Lower(expected) then (st, Some(expected))
      else
        var d := Download(net, st, name, version, expected);
        (d.0, if d.1.Some? then Some(expected) else None)
    else if st.disk[id] != "" then (st, Some(st.disk[id]))
    else if id in net.metas then (st.(disk := st.disk[id := net.metas[id]]), Some(net.metas[id]))
    else (st, None)
  }

  function Install(net: Net, st: State, root: string, r: Request): Attempt {
    var f := Fetch(net, st, r.name, r.version, r.checksum);
    if f.1.None? || f.1.value == "" then Attempt(f.0, false)
    else Attempt(AddDependant(Release(f.0, r.name, Some(r.version), root), r.name, r.version, root), true)
  }

  /** Installs in order and stops at the first failure. */
  function InstallAll(net: Net, st: State, root: string, rs: seq<Request>): Attempt
    decreases |rs|
  {
    if rs == [] then Attempt(st, true)
    else
      var first := Install(net, st, root, rs[0]);
      if first.ok then InstallAll(net, first.st, root, rs[1..]) else first
  }

  predicate IsPathSource(source: string) {
    "path:" <= source
  }

  function Requests(packages: seq<LockPackage>): seq<Request> {
    if packages == [] then []
    else
      var p := packages[0];
      (if IsPathSource(p.source) then [] else [Request(p.name, p.version, p.checksum)]) + Requests(packages[1..])
  }

  function LockOf(st: State, root: string): seq<LockPackage> {
    if root in st.locks then st.locks[root] else []
  }

  /** A later entry of a name replaces an earlier one. */
  function LockMap(packages: seq<LockPackage>): map<string, LockPackage> {
    if packages == [] then map[]
    else
      var last := packages[|packages| - 1];
      LockMap(packages[..|packages| - 1])[last.name := last]
  }

  function PackageNames(packages: seq<LockPackage>): set<string> {
    set p | p in packages :: p.name
  }

  /** The registry versions of the old lockfile whose names are gone. */
  function Gone(previous: seq<LockPackage>, next: set<string>): set<(string, string)> {
    var m := LockMap(previous);
    set n | n in m && n !in next && !IsPathSource(m[n].source) :: (n, m[n].version)
  }

  predicate Writable(packages: seq<LockPackage>) {
    forall p | p in packages :: p.checksum != ""
  }

  function WriteLock(st: State, root: string, packages: seq<LockPackage>): State {
    st.(locks := st.locks[root := packages])
  }

  /** The tail shared by both ways of installing a project: drop what is gone, install
      the packages, then the native artifacts, then write the lockfile. */
  function InstallPackages(net: Net, st: State, root: string, packages: seq<LockPackage>, nativesOk: bool): Attempt {
    var dropped := Drop(st, Gone(LockOf(st, root), PackageNames(packages)), root);
    var installed := InstallAll(net, dropped, root, Requests(packages));
    if !installed.ok || !nativesOk || !Writable(packages) then Attempt(installed.st, false)
    else Attempt(WriteLock(installed.st, root, packages), true)
  }

  /** `tentative` are the versions the resolver fetched to read their manifests, and
      `outcome` is what it selected, None when it failed. */
  function ResolveAndInstall(net: Net, st: State, root: string, tentative: seq<Request>,
                             outcome: Option<seq<LockPackage>>, nativesOk: bool): Attempt {
    var tried := InstallAll(net, st, root, tentative);
    if !tried.ok || outcome.None? then Attempt(tried.st, false)
    else InstallPackages(net, tried.st, root, outcome.value, nativesOk)
  }

  /* ---------- Invariant and frame ---------- */

  /** Every version with a registered project is on disk. */
  predicate Sound(st: State) {
    forall k | k in st.index :: st.index[k] != {} && '@' in k && Split(k) in st.disk
  }

  /** The registrations of all other projects are the same. */
  ghost predicate OthersKept(st: State, next: State, root: string) {
    forall k, q | q != root :: q in Dependants(next, k) <==> q in Dependants(st, k)
  }

  lemma OthersKeptReflexive(st: State, root: string)
    ensures OthersKept(st, st, root)
  {
  }

  lemma OthersKeptTransitive(a: State, b: State, c: State, root: string)
    requires OthersKept(a, b, root) && OthersKept(b, c, root)
    ensures OthersKept(a, c, root)
  {
  }

  lemma DropDependants(st: State, pairs: set<(string, string)>, root: string, k: string)
    ensures Dependants(Drop(st, pairs, root), k) == if Covers(pairs, k) then Dependants(st, k) - {root} else Dependants(st, k)
  {
    hide Split;
  }

  lemma DropSound(st: State, pairs: set<(string, string)>, root: string)
    requires Sound(st)
    ensures Sound(Drop(st, pairs, root)) && OthersKept(st, Drop(st, pairs, root), root)
    ensures Drop(st, pairs, root).locks == st.locks
  {
    hide Split, Key;
    var next := Drop(st, pairs, root);
    forall k | k in next.index ensures next.index[k] != {} && '@' in k && Split(k) in next.disk {
      SplitRoundTrip(k);
      assert k in st.index && Split(k) in st.disk;
    }
    forall k, q | q != root ensures q in Dependants(next, k) <==> q in Dependants(st, k) {
      DropDependants(st, pairs, root, k);
    }
  }

  /** A fetch keeps every registered version on disk unless it replaces the directory of
      one by an archive that breaks off before its manifest: the old directory is deleted
      first. */
  lemma FetchSoundIff(net: Net, st: State, name: string, version: string, expected: string)
    requires Sound(st) && NoAt(name)
    ensures Sound(Fetch(net, st, name, version, expected).0) <==>
      !(Refetched(net, st, name, version, expected) && (name, version) in net.breaks && !net.breaks[(name, version)]
        && Dependants(st, Key(name, version)) != {})
  {
    SplitKey(name, version);
    hide Split, Lower, Key;
    var next := Fetch(net, st, name, version, expected).0;
    forall k | k in st.index && Split(k) == (name, version) ensures k == Key(name, version) { SplitRoundTrip(k); }
    if Key(name, version) in st.index && (name, version) !in next.disk { assert !Sound(next); }
  }

  lemma FetchSound(net: Net, st: State, name: string, version: string, expected: string)
    requires Sound(st)
    ensures var f := Fetch(net, st, name, version, expected);
      f.0.index == st.index && f.0.locks == st.locks && (f.1.Some? ==> (name, version) in f.0.disk)
      && (f.1.Some? || KeepsManifests(net) ==> Sound(f.0) && st.disk.Keys <= f.0.disk.Keys)
  {
    hide Split, Lower;
  }

  /** An install that succeeds leaves half a package exactly where there was one already
      that it did not fetch again. */
  lemma InstallHalfIff(net: Net, st: State, root: string, r: Request)
    requires Install(net, st, root, r).ok
    ensures Half(Install(net, st, root, r).st, r.name, r.version) <==>
      Half(st, r.name, r.version) && !Refetched(net, st, r.name, r.version, r.checksum)
  {
    hide Lower, Split, Key, Drop;
    var f := Fetch(net, st, r.name, r.version, r.checksum);
    assert (r.name, r.version) in f.0.disk;
    ReleaseKeeps(f.0, r.name, r.version, root);
    DropKeepsCut(f.0, Previous(f.0, r.name, Some(r.version), root), root);
  }

  lemma DropKeepsCut(st: State, pairs: set<(string, string)>, root: string)
    ensures Drop(st, pairs, root).cut == st.cut
  {
  }

  /** Such a package is taken for good: after an extraction that broke off, an install
      without a checksum records the published one and succeeds. */
  lemma HalfInstalled(root: string, name: string, version: string)
    ensures var id := (name, version);
      var broken, later := Net(map[id := "c"], map[id := "c"], map[id := true]), Net(map[id := "c"], map[id := "c"], map[]);
      var first := Install(broken, State(map[], map[], map[], {}), root, Request(name, version, ""));
      var second := Install(later, first.st, root, Request(name, version, ""));
      !first.ok && second.ok && Half(second.st, name, version)
      && Install(later, second.st, root, Request(name, version, "c")).ok
      && Half(Install(later, second.st, root, Request(name, version, "c")).st, name, version)
  {
    hide Lower, Split, Key, Drop, Previous;
    var id := (name, version);
    var broken, later := Net(map[id := "c"], map[id := "c"], map[id := true]), Net(map[id := "c"], map[id := "c"], map[]);
    var first := Install(broken, State(map[], map[], map[], {}), root, Request(name, version, ""));
    var second := Install(later, first.st, root, Request(name, version, ""));
    assert first.st.disk == map[id := ""] && first.st.cut == {id};
    assert Fetch(later, first.st, name, version, "").1 == Some("c");
    InstallHalfIff(later, first.st, root, Request(name, version, ""));
    ReleaseKeeps(Fetch(later, first.st, name, version, "").0, name, version, root);
    var fetched := Fetch(later, first.st, name, version, "").0;
    KeptChecksum(fetched, name, version, root);
    assert second.st.disk[id] == "c";
    InstallHalfIff(later, second.st, root, Request(name, version, "c"));
  }

  lemma KeptChecksum(st: State, name: string, version: string, root: string)
    requires (name, version) in st.disk
    ensures var next := Release(st, name, Some(version), root);
      (name, version) in next.disk && next.disk[(name, version)] == st.disk[(name, version)]
  {
    hide Split;
  }

  /** What a lockfile or a manifest expects is what is recorded: a fetch with an expected
      checksum succeeds only if the recorded one is the same but for case. */
  lemma FetchVerifies(net: Net, st: State, name: string, version: string, expected: string)
    requires expected != "" && Fetch(net, st, name, version, expected).1.Some?
    ensures var f := Fetch(net, st, name, version, expected);
      (name, version) in f.0.disk && Lower(f.0.disk[(name, version)]) == Lower(expected)
    ensures forall id | id != (name, version) :: id in Fetch(net, st, name, version, expected).0.disk <==> id in st.disk
  {
  }

  /** An installed version carries the requested checksum. */
  lemma InstallVerifies(net: Net, st: State, root: string, r: Request)
    requires r.checksum != "" && Install(net, st, root, r).ok
    ensures var disk := Install(net, st, root, r).st.disk;
      (r.name, r.version) in disk && Lower(disk[(r.name, r.version)]) == Lower(r.checksum)
  {
    hide Lower, Split, Key;
    FetchVerifies(net, st, r.name, r.version, r.checksum);
    ReleaseKeeps(Fetch(net, st, r.name, r.version, r.checksum).0, r.name, r.version, root);
  }

  lemma AddSound(st: State, name: string, version: string, root: string)
    requires Sound(st) && NoAt(name) && (name, version) in st.disk
    ensures Sound(AddDependant(st, name, version, root)) && OthersKept(st, AddDependant(st, name, version, root), root)
  {
    SplitKey(name, version);
    hide Split, Key;
  }

  lemma ReleaseKeeps(st: State, name: string, version: string, root: string)
    requires (name, version) in st.disk
    ensures (name, version) in Release(st, name, Some(version), root).disk
  {
    hide Split;
  }

  /** An install touches nobody else's registrations, keeps every registered version on
      disk, and leaves the project registered on exactly this version of the name. */
  lemma InstallSound(net: Net, st: State, root: string, r: Request)
    requires Sound(st) && NoAt(r.name)
    ensures var a := Install(net, st, root, r);
      (a.ok || KeepsManifests(net) ==> Sound(a.st)) && OthersKept(st, a.st, root) && a.st.locks == st.locks
    ensures var a := Install(net, st, root, r);
      a.ok ==>
        (r.name, r.version) in a.st.disk && forall v :: root in Dependants(a.st, Key(r.name, v)) <==> v == r.version
    ensures var a := Install(net, st, root, r);
      forall n, v | NoAt(n) && (n != r.name || !a.ok) :: Dependants(a.st, Key(n, v)) == Dependants(st, Key(n, v))
  {
    hide Fetch, Split, Key, Drop, Previous, Covers;
    var f := Fetch(net, st, r.name, r.version, r.checksum);
    FetchSound(net, st, r.name, r.version, r.checksum);
    if f.1.Some? && f.1.value != "" {
      var pairs := Previous(f.0, r.name, Some(r.version), root);
      var released := Release(f.0, r.name, Some(r.version), root);
      DropSound(f.0, pairs, root);
      ReleaseKeeps(f.0, r.name, r.version, root);
      AddSound(released, r.name, r.version, root);
      OthersKeptTransitive(f.0, released, Install(net, st, root, r).st, root);
      forall v ensures root in Dependants(Install(net, st, root, r).st, Key(r.name, v)) <==> v == r.version {
        ReleasedFromName(f.0, r.name, r.version, root, v);
      }
      forall n, v | NoAt(n) && n != r.name
        ensures Dependants(Install(net, st, root, r).st, Key(n, v)) == Dependants(st, Key(n, v))
      {
        OtherNameKept(f.0, r.name, r.version, root, n, v);
      }
    }
  }

  lemma ReleasedFromName(st: State, name: string, version: string, root: string, v: string)
    requires NoAt(name)
    ensures var next := AddDependant(Release(st, name, Some(version), root), name, version, root);
      root in Dependants(next, Key(name, v)) <==> v == version
  {
    hide Split, Key, Drop;
    SplitKey(name, v);
    SplitKey(name, version);
    var pairs := Previous(st, name, Some(version), root);
    DropDependants(st, pairs, root, Key(name, v));
    if v != version && root in Dependants(st, Key(name, v)) {
      assert Key(name, v) in st.index && Split(Key(name, v)) in pairs;
    }
  }

  lemma OtherNameKept(st: State, name: string, version: string, root: string, n: string, v: string)
    requires NoAt(name) && NoAt(n) && n != name
    ensures var next := AddDependant(Release(st, name, Some(version), root), name, version, root);
      Dependants(next, Key(n, v)) == Dependants(st, Key(n, v))
  {
    hide Split, Key, Drop;
    SplitKey(name, version);
    SplitKey(n, v);
    DropDependants(st, Previous(st, name, Some(version), root), root, Key(n, v));
  }

  /* ---------- Whole installs ---------- */

  predicate GoodNames(rs: seq<Request>) {
    forall i | 0 <= i < |rs| :: NoAt(rs[i].name)
  }

  predicate DistinctNames(rs: seq<Request>) {
    forall i, j | 0 <= i < j < |rs| :: rs[i].name != rs[j].name
  }

  /** The project is registered on exactly this version of the name, and it is on disk. */
  ghost predicate InstalledAs(st: State, root: string, name: string, version: string) {
    (name, version) in st.disk && forall v :: root in Dependants(st, Key(name, v)) <==> v == version
  }

  lemma StillPresent(st: State, next: State, root: string, name: string, version: string)
    requires Sound(next) && NoAt(name) && InstalledAs(st, root, name, version)
    requires forall v :: Dependants(next, Key(name, v)) == Dependants(st, Key(name, v))
    ensures InstalledAs(next, root, name, version)
  {
    SplitKey(name, version);
    hide Split, Key;
    assert root in Dependants(next, Key(name, version));
  }

  lemma {:induction false} InstallAllSound(net: Net, st: State, root: string, rs: seq<Request>)
    requires Sound(st) && GoodNames(rs)
    ensures var a := InstallAll(net, st, root, rs);
      (a.ok || KeepsManifests(net) ==> Sound(a.st)) && OthersKept(st, a.st, root) && a.st.locks == st.locks
    ensures var a := InstallAll(net, st, root, rs);
      forall n, v | NoAt(n) && (forall i | 0 <= i < |rs| :: rs[i].name != n) ::
        Dependants(a.st, Key(n, v)) == Dependants(st, Key(n, v))
    ensures var a := InstallAll(net, st, root, rs);
      a.ok && DistinctNames(rs) ==> forall i | 0 <= i < |rs| :: InstalledAs(a.st, root, rs[i].name, rs[i].version)
    decreases |rs|
  {
    hide Install, Split, Key, Dependants, Sound, OthersKept, InstalledAs;
    OthersKeptReflexive(st, root);
    if rs != [] {
      var first, rest := Install(net, st, root, rs[0]), rs[1..];
      InstallSound(net, st, root, rs[0]);
      FirstInstalled(net, st, root, rs[0]);
      if first.ok {
        InstallAllSound(net, first.st, root, rest);
        var a := InstallAll(net, first.st, root, rest);
        OthersKeptTransitive(st, first.st, a.st, root);
        if a.ok && DistinctNames(rs) {
          assert DistinctNames(rest);
          StillPresent(first.st, a.st, root, rs[0].name, rs[0].version);
          forall i | 0 <= i < |rs| ensures InstalledAs(a.st, root, rs[i].name, rs[i].version) {
            if i > 0 { assert rs[i] == rest[i - 1]; }
          }
        }
        forall n, v | NoAt(n) && (forall i | 0 <= i < |rs| :: rs[i].name != n)
          ensures Dependants(a.st, Key(n, v)) == Dependants(st, Key(n, v))
        {
          assert forall i | 0 <= i < |rest| :: rest[i] == rs[i + 1];
        }
      }
    }
  }

  lemma FirstInstalled(net: Net, st: State, root: string, r: Request)
    requires Sound(st) && NoAt(r.name)
    ensures var a := Install(net, st, root, r); a.ok ==> InstalledAs(a.st, root, r.name, r.version)
  {
    hide Install;
    InstallSound(net, st, root, r);
  }

  /** A lockfile as the resolver makes it: one entry a name, and no `@` in names. */
  predicate GoodPackages(packages: seq<LockPackage>) {
    (forall i | 0 <= i < |packages| :: NoAt(packages[i].name))
    && forall i, j | 0 <= i < j < |packages| :: packages[i].name != packages[j].name
  }

  lemma {:induction false} RequestsAre(packages: seq<LockPackage>)
    ensures forall p | p in packages && !IsPathSource(p.source) :: Request(p.name, p.version, p.checksum) in Requests(packages)
    ensures forall r | r in Requests(packages) :: exists p :: p in packages && p.name == r.name && !IsPathSource(p.source)
  {
    if packages != [] {
      RequestsAre(packages[1..]);
      assert packages == [packages[0]] + packages[1..];
      assert packages[0] in packages && forall q | q in packages[1..] :: q in packages;
    }
  }

  lemma {:induction false} RequestsDistinct(packages: seq<LockPackage>)
    requires GoodPackages(packages)
    ensures GoodNames(Requests(packages)) && DistinctNames(Requests(packages))
  {
    if packages != [] {
      var p, rest := packages[0], packages[1..];
      assert forall i | 0 <= i < |rest| :: rest[i] == packages[i + 1];
      RequestsDistinct(rest);
      RequestsAre(rest);
      var later := Requests(rest);
      forall i | 0 <= i < |later| ensures later[i].name != p.name {
        assert later[i] in later;
        var q :| q in rest && q.name == later[i].name;
      }
      DistinctCons(Request(p.name, p.version, p.checksum), later);
    }
  }

  lemma DistinctCons(r: Request, later: seq<Request>)
    requires NoAt(r.name) && GoodNames(later) && DistinctNames(later)
    requires forall i | 0 <= i < |later| :: later[i].name != r.name
    ensures GoodNames([r] + later) && DistinctNames([r] + later)
    ensures [] + later == later
  {
    hide NoAt;
    var rs := [r] + later;
    assert rs[0] == r && forall i | 0 < i < |rs| :: rs[i] == later[i - 1];
  }

  /** All registry packages of the project's lockfile are on disk, and the project is
      registered on exactly the locked version of each. */
  ghost predicate LockInstalled(st: State, root: string) {
    forall p | p in LockOf(st, root) && !IsPathSource(p.source) :: InstalledAs(st, root, p.name, p.version)
  }

  lemma InstallPackagesSound(net: Net, st: State, root: string, packages: seq<LockPackage>, nativesOk: bool)
    requires Sound(st) && GoodPackages(packages)
    ensures var a := InstallPackages(net, st, root, packages, nativesOk);
      (a.ok || KeepsManifests(net) ==> Sound(a.st)) && OthersKept(st, a.st, root)
      && (a.ok ==> LockOf(a.st, root) == packages && LockInstalled(a.st, root))
    ensures var a := InstallPackages(net, st, root, packages, nativesOk);
      a.st.locks == if a.ok then st.locks[root := packages] else st.locks
  {
    hide InstallAll, Drop, Gone, InstalledAs, Requests, Dependants, Sound, Key;
    var gone := Gone(LockOf(st, root), PackageNames(packages));
    var dropped := Drop(st, gone, root);
    DropSound(st, gone, root);
    RequestsAre(packages);
    RequestsDistinct(packages);
    var rs := Requests(packages);
    InstallAllSound(net, dropped, root, rs);
    var installed := InstallAll(net, dropped, root, rs);
    OthersKeptTransitive(st, dropped, installed.st, root);
    LockDoesNotMatter(installed.st, root, packages);
    var a := InstallPackages(net, st, root, packages, nativesOk);
    if a.ok {
      forall p | p in packages && !IsPathSource(p.source) ensures InstalledAs(a.st, root, p.name, p.version) {
        var r := Request(p.name, p.version, p.checksum);
        assert r in rs;
        var i :| 0 <= i < |rs| && rs[i] == r;
      }
    }
  }

  lemma LockDoesNotMatter(st: State, root: string, packages: seq<LockPackage>)
    ensures var next := WriteLock(st, root, packages);
      (Sound(st) ==> Sound(next)) && OthersKept(st, next, root)
      && (forall k :: Dependants(next, k) == Dependants(st, k))
      && forall n, v | InstalledAs(st, root, n, v) :: InstalledAs(next, root, n, v)
  {
    hide Split, Key;
  }

  /** After `resolveAndInstall` every locked registry package is present and registered. */
  lemma ResolveAndInstallSound(net: Net, st: State, root: string, tentative: seq<Request>,
                               outcome: Option<seq<LockPackage>>, nativesOk: bool)
    requires Sound(st) && GoodNames(tentative) && (outcome.Some? ==> GoodPackages(outcome.value))
    ensures var a := ResolveAndInstall(net, st, root, tentative, outcome, nativesOk);
      (a.ok || KeepsManifests(net) ==> Sound(a.st)) && OthersKept(st, a.st, root)
      && (a.ok ==> outcome == Some(LockOf(a.st, root)) && LockInstalled(a.st, root))
      && a.st.locks == if a.ok then st.locks[root := outcome.value] else st.locks
  {
    hide InstallAll, InstallPackages, OthersKept, Sound, LockInstalled;
    var tried := InstallAll(net, st, root, tentative);
    InstallAllSound(net, st, root, tentative);
    if tried.ok && outcome.Some? {
      InstallPackagesSound(net, tried.st, root, outcome.value, nativesOk);
      OthersKeptTransitive(st, tried.st, InstallPackages(net, tried.st, root, outcome.value, nativesOk).st, root);
    }
  }

  /** What a run leaves behind: for a name that the new lockfile does not have, and apart
      from the version the old one had, the project stays registered on whatever it was
      registered on once the resolver was done, so also on a version that was fetched
      only to be rejected. */
  lemma LeftoverRegistrations(net: Net, st: State, root: string, packages: seq<LockPackage>, nativesOk: bool,
                              n: string, v: string)
    requires Sound(st) && GoodPackages(packages) && NoAt(n) && n !in PackageNames(packages)
    ensures var next := InstallPackages(net, st, root, packages, nativesOk).st;
      root in Dependants(next, Key(n, v)) <==>
        root in Dependants(st, Key(n, v)) && (n, v) !in Gone(LockOf(st, root), PackageNames(packages))
  {
    hide InstallAll, Drop, Gone, Requests, Dependants, Sound, Key, Split;
    var gone := Gone(LockOf(st, root), PackageNames(packages));
    var dropped := Drop(st, gone, root);
    DropSound(st, gone, root);
    RequestsAre(packages);
    RequestsDistinct(packages);
    var rs := Requests(packages);
    InstallAllSound(net, dropped, root, rs);
    LockDoesNotMatter(InstallAll(net, dropped, root, rs).st, root, packages);
    DropDependants(st, gone, root, Key(n, v));
    SplitKey(n, v);
    forall i | 0 <= i < |rs| ensures rs[i].name != n {
      assert rs[i] in rs;
      var p :| p in packages && p.name == rs[i].name && !IsPathSource(p.source);
    }
  }

  /* ---------- What a failure leaves of the old lockfile ---------- */

  /** How many of the requests succeed before one fails. */
  function Fetched(net: Net, st: State, root: string, rs: seq<Request>): (k: nat)
    ensures k <= |rs|
    decreases |rs|
  {
    if rs == [] then 0
    else
      var first := Install(net, st, root, rs[0]);
      if first.ok then Fetched(net, first.st, root, rs[1..]) + 1 else 0
  }

  /** The version that was asked for last, for one name. */
  function LastFor(rs: seq<Request>, name: string): Option<string>
    decreases |rs|
  {
    if rs == [] then None
    else
      var later := LastFor(rs[1..], name);
      if later.Some? then later else if rs[0].name == name then Some(rs[0].version) else None
  }

  /** The project is registered on exactly this version of the name. */
  ghost predicate RegisteredAs(st: State, root: string, name: string, version: string) {
    forall v :: root in Dependants(st, Key(name, v)) <==> v == version
  }

  lemma RegisteredIsInstalled(st: State, root: string, name: string, version: string)
    requires Sound(st) && NoAt(name)
    ensures RegisteredAs(st, root, name, version) <==> InstalledAs(st, root, name, version)
  {
    SplitKey(name, version);
    hide Split, Key;
    if RegisteredAs(st, root, name, version) { assert root in Dependants(st, Key(name, version)); }
  }

  /** After installs, however far they got, a name is registered as it was asked for last. */
  lemma {:induction false} RegisteredByLast(net: Net, st: State, root: string, rs: seq<Request>, name: string,
                                            version: string)
    requires Sound(st) && GoodNames(rs) && NoAt(name)
    ensures var last := LastFor(rs[..Fetched(net, st, root, rs)], name);
      RegisteredAs(InstallAll(net, st, root, rs).st, root, name, version) <==>
        if last.Some? then last.value == version else RegisteredAs(st, root, name, version)
    decreases |rs|
  {
    hide Install, Key, Dependants, Sound, NoAt;
    if rs != [] {
      var first, rest := Install(net, st, root, rs[0]), rs[1..];
      InstallSound(net, st, root, rs[0]);
      if first.ok {
        var k := Fetched(net, first.st, root, rest);
        assert rs[..k + 1][1..] == rest[..k] && rs[..k + 1][0] == rs[0];
        RegisteredByLast(net, first.st, root, rest, name, version);
        if rs[0].name == name { OneVersion(first.st, root, name, rs[0].version, version); }
      } else {
        assert rs[..0] == [];
      }
    }
  }

  lemma OneVersion(st: State, root: string, name: string, have: string, version: string)
    requires RegisteredAs(st, root, name, have)
    ensures RegisteredAs(st, root, name, version) <==> have == version
  {
    hide Key, Dependants;
    assert root in Dependants(st, Key(name, have));
  }

  /** The names the failed run got as far as replacing: the requests that succeeded, and
      whether the old versions of missing names had been dropped by then. */
  datatype Progress = Progress(done: seq<Request>, dropped: bool)

  function ProgressOf(net: Net, st: State, root: string, tentative: seq<Request>,
                      outcome: Option<seq<LockPackage>>): Progress {
    var tried := InstallAll(net, st, root, tentative);
    var first := tentative[..Fetched(net, st, root, tentative)];
    if !tried.ok || outcome.None? then Progress(first, false)
    else
      var dropped := Drop(tried.st, Gone(LockOf(tried.st, root), PackageNames(outcome.value)), root);
      var rs := Requests(outcome.value);
      Progress(first + rs[..Fetched(net, dropped, root, rs)], true)
  }

  /** The package is still installed as locked. */
  predicate Survives(p: LockPackage, progress: Progress, outcome: Option<seq<LockPackage>>) {
    (progress.dropped && outcome.Some? ==> p.name in PackageNames(outcome.value))
    && var last := LastFor(progress.done, p.name);
       last.Some? ==> last.value == p.version
  }

  lemma {:induction false} LastForConcat(a: seq<Request>, b: seq<Request>, name: string)
    ensures LastFor(a + b, name) == if LastFor(b, name).Some? then LastFor(b, name) else LastFor(a, name)
    decreases |a|
  {
    if a == [] {
      assert a + b == b;
    } else {
      assert (a + b)[1..] == a[1..] + b;
      LastForConcat(a[1..], b, name);
    }
  }

  lemma {:induction false} LockMapOf(packages: seq<LockPackage>, p: LockPackage)
    requires GoodPackages(packages) && p in packages
    ensures p.name in LockMap(packages) && LockMap(packages)[p.name] == p
    decreases |packages|
  {
    hide NoAt;
    var n := |packages| - 1;
    var front := packages[..n];
    if p != packages[n] {
      var i :| 0 <= i < |packages| && packages[i] == p;
      assert front[i] == p;
      assert forall k | 0 <= k < n :: front[k] == packages[k];
      LockMapOf(front, p);
    }
  }

  /** Dropping what is gone unregisters exactly the locked packages that are missing now. */
  lemma DroppedUnlessNamed(st: State, root: string, next: set<string>, p: LockPackage)
    requires Sound(st) && GoodPackages(LockOf(st, root)) && p in LockOf(st, root) && !IsPathSource(p.source)
    ensures var after := Drop(st, Gone(LockOf(st, root), next), root);
      RegisteredAs(after, root, p.name, p.version) <==> p.name in next && RegisteredAs(st, root, p.name, p.version)
  {
    var packages, gone := LockOf(st, root), Gone(LockOf(st, root), next);
    LockMapOf(packages, p);
    NamesGood(packages, p);
    forall v ensures Covers(gone, Key(p.name, v)) <==> p.name !in next && v == p.version {
      SplitKey(p.name, v);
    }
    forall v { DropDependants(st, gone, root, Key(p.name, v)); }
    hide Split, Key, Drop, Covers, Gone, LockMap;
    if p.name !in next { assert root !in Dependants(Drop(st, gone, root), Key(p.name, p.version)); }
  }

  lemma NamesGood(packages: seq<LockPackage>, p: LockPackage)
    requires GoodPackages(packages) && p in packages
    ensures NoAt(p.name)
  {
    hide NoAt;
    var i :| 0 <= i < |packages| && packages[i] == p;
  }

  /** One locked package after a resolution that failed, wherever it failed. */
  lemma SurvivesIff(net: Net, st: State, root: string, tentative: seq<Request>, outcome: Option<seq<LockPackage>>,
                    nativesOk: bool, p: LockPackage)
    requires Sound(st) && GoodNames(tentative) && (outcome.Some? ==> GoodPackages(outcome.value)) && KeepsManifests(net)
    requires GoodPackages(LockOf(st, root)) && p in LockOf(st, root) && !IsPathSource(p.source)
    requires RegisteredAs(st, root, p.name, p.version)
    requires !ResolveAndInstall(net, st, root, tentative, outcome, nativesOk).ok
    ensures RegisteredAs(ResolveAndInstall(net, st, root, tentative, outcome, nativesOk).st, root, p.name, p.version)
       <==> Survives(p, ProgressOf(net, st, root, tentative, outcome), outcome)
  {
    hide InstallAll, Drop, Gone, Requests, Dependants, Sound, Key, NoAt, RegisteredAs, LastFor, Fetched, GoodPackages,
         GoodNames, DistinctNames;
    var tried := InstallAll(net, st, root, tentative);
    NamesGood(LockOf(st, root), p);
    InstallAllSound(net, st, root, tentative);
    RegisteredByLast(net, st, root, tentative, p.name, p.version);
    if tried.ok && outcome.Some? {
      var names := PackageNames(outcome.value);
      var dropped, rs := Drop(tried.st, Gone(LockOf(tried.st, root), names), root), Requests(outcome.value);
      assert LockOf(tried.st, root) == LockOf(st, root);
      DropSound(tried.st, Gone(LockOf(tried.st, root), names), root);
      DroppedUnlessNamed(tried.st, root, names, p);
      RequestsDistinct(outcome.value);
      RegisteredByLast(net, dropped, root, rs, p.name, p.version);
      var first, second := tentative[..Fetched(net, st, root, tentative)], rs[..Fetched(net, dropped, root, rs)];
      LastForConcat(first, second, p.name);
      NamedByRequests(outcome.value, second, p.name);
    }
  }

  /** Only names of the new packages are asked for. */
  lemma NamedByRequests(packages: seq<LockPackage>, rs: seq<Request>, name: string)
    requires rs <= Requests(packages)
    ensures LastFor(rs, name).Some? ==> name in PackageNames(packages)
  {
    if LastFor(rs, name).Some? {
      var i := LastAt(rs, name);
      RequestsAre(packages);
      assert rs[i] == Requests(packages)[i] && Requests(packages)[i] in Requests(packages);
    }
  }

  lemma {:induction false} LastAt(rs: seq<Request>, name: string) returns (i: nat)
    requires LastFor(rs, name).Some?
    ensures i < |rs| && rs[i].name == name
    decreases |rs|
  {
    if LastFor(rs[1..], name).Some? {
      var j := LastAt(rs[1..], name);
      i := j + 1;
    } else {
      i := 0;
    }
  }

  /** An installed lockfile survives a failed resolution if and only if each of its
      registry packages was last fetched at the locked version, if at all, and is among the
      new packages if the run got as far as dropping what is gone. */
  lemma LockSurvivesIff(net: Net, st: State, root: string, tentative: seq<Request>, outcome: Option<seq<LockPackage>>,
                        nativesOk: bool)
    requires Sound(st) && GoodNames(tentative) && (outcome.Some? ==> GoodPackages(outcome.value)) && KeepsManifests(net)
    requires GoodPackages(LockOf(st, root)) && LockInstalled(st, root)
    requires !ResolveAndInstall(net, st, root, tentative, outcome, nativesOk).ok
    ensures LockInstalled(ResolveAndInstall(net, st, root, tentative, outcome, nativesOk).st, root) <==>
      forall p | p in LockOf(st, root) && !IsPathSource(p.source) ::
        Survives(p, ProgressOf(net, st, root, tentative, outcome), outcome)
  {
    hide ResolveAndInstall, InstalledAs, RegisteredAs, Sound, Survives, ProgressOf, NoAt, GoodPackages;
    var a := ResolveAndInstall(net, st, root, tentative, outcome, nativesOk);
    ResolveAndInstallSound(net, st, root, tentative, outcome, nativesOk);
    assert LockOf(a.st, root) == LockOf(st, root);
    forall p | p in LockOf(st, root) && !IsPathSource(p.source)
      ensures InstalledAs(a.st, root, p.name, p.version) <==>
        Survives(p, ProgressOf(net, st, root, tentative, outcome), outcome)
    {
      NamesGood(LockOf(st, root), p);
      RegisteredIsInstalled(st, root, p.name, p.version);
      RegisteredIsInstalled(a.st, root, p.name, p.version);
      SurvivesIff(net, st, root, tentative, outcome, nativesOk, p);
    }
  }

  /** So it does not survive when the resolver fetches another version of a locked package
      to read its manifest, and then fails: the lockfile is the old one, but its version
      has been released. */
  lemma FetchThenFailure(net: Net, st: State, root: string, p: LockPackage, r: Request)
    requires Sound(st) && GoodPackages(LockOf(st, root)) && LockInstalled(st, root) && KeepsManifests(net)
    requires p in LockOf(st, root) && !IsPathSource(p.source)
    requires r.name == p.name && r.version != p.version && Install(net, st, root, r).ok
    ensures var a := ResolveAndInstall(net, st, root, [r], None, true);
      !a.ok && LockOf(a.st, root) == LockOf(st, root) && !LockInstalled(a.st, root)
  {
    hide Install, InstalledAs, Sound, NoAt, GoodPackages;
    NamesGood(LockOf(st, root), p);
    assert [r][1..] == [];
    assert Fetched(net, st, root, [r]) == 1 && [r][..1] == [r];
    assert LastFor([r], p.name) == Some(r.version);
    LockSurvivesIff(net, st, root, [r], None, true);
    ResolveAndInstallSound(net, st, root, [r], None, true);
  }
}
