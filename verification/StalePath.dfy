/** A run of the resolver that keeps a registry package at an old version: its constraints
    are gone, and a path dependency of a root holds it. */
module StalePath {
  import opened Common
  import opened Graphs
  import opened SemVer
  import opened Releases
  import opened DependencyGraph
  import opened Resolve
  import opened Resolver

  const OF_OLD_Q := [Dep("t", VersionDep("1.0.0"))]
  const OF_NEW_Q := [Dep("t", VersionDep("1.0.0")), Dep("n", VersionDep("1.0.0"))]
  const OF_OLD_T := [Dep("n", PathDep("../n")), Dep("q", VersionDep("1.0.0"))]

  /** `q` needs exactly `t` 1.0.0, and its new version also exactly `n` 1.0.0; `t` 1.0.0
      needs `n` by a path and exactly `q` 1.0.0. */
  function PathWorld(): World {
    var both := ["1.0.0", "1.1.0"];
    World(v => ReadVersion(v), r => ReadRange(r),
          map["q" := both, "t" := both, "n" := both],
          map[("q", "1.0.0") := Manifest("q", "1.0.0", "a", OF_OLD_Q), ("q", "1.1.0") := Manifest("q", "1.1.0", "b", OF_NEW_Q),
              ("t", "1.0.0") := Manifest("t", "1.0.0", "c", OF_OLD_T), ("t", "1.1.0") := Manifest("t", "1.1.0", "d", []),
              ("n", "1.0.0") := Manifest("n", "1.0.0", "e", []), ("n", "1.1.0") := Manifest("n", "1.1.0", "f", [])],
          (from, path) => path, map[])
  }

  function PathProblem(): Problem {
    Problem(PathWorld(), "", map["q" := VersionDep("^1.0.0"), "t" := VersionDep("^1.0.0")], map[], {}, map[], {"q", "t"})
  }

  const OLD_Q := Selected("1.0.0", "a", REGISTRY, OF_OLD_Q, false, None)
  const NEW_Q := Selected("1.1.0", "b", REGISTRY, OF_NEW_Q, false, None)
  const OLD_T := Selected("1.0.0", "c", REGISTRY, OF_OLD_T, false, None)
  const NEW_T := Selected("1.1.0", "d", REGISTRY, [], false, None)
  const OLD_N := Selected("1.0.0", "e", REGISTRY, [], false, None)

  /** The selection after `k` rounds. */
  function Stage(k: nat): Selection {
    if k == 0 then map["q" := STUB, "t" := STUB]
    else if k == 1 then map["q" := NEW_Q, "t" := NEW_T]
    else if k == 2 then map["q" := NEW_Q, "t" := OLD_T, "n" := OLD_N]
    else map["q" := OLD_Q, "t" := OLD_T, "n" := OLD_N]
  }

  /** The names a stage constrains, and the version each is led to. */
  function Wanted(k: nat): Selection {
    if k == 0 then map["q" := NEW_Q, "t" := NEW_T]
    else if k == 1 then map["q" := NEW_Q, "t" := OLD_T, "n" := OLD_N]
    else if k == 2 then map["q" := OLD_Q, "t" := OLD_T, "n" := OLD_N]
    else map["q" := OLD_Q, "t" := OLD_T]
  }

  lemma DepRange(parent: string, version: string, deps: seq<Dep>, n: string, c: Constraint)
    requires DepConstraint(PathProblem(), parent, version, deps, n, c)
    requires deps == OF_OLD_Q || deps == OF_NEW_Q || deps == OF_OLD_T || deps == []
    ensures c.range == JUST_ONE && deps != []
    ensures deps == OF_OLD_Q ==> n == "t"
    ensures deps == OF_NEW_Q ==> n == "t" || n == "n"
    ensures deps == OF_OLD_T ==> n == "q"
  {
  }

  lemma StageDeps(k: nat, m: string)
    requires m in Stage(k)
    ensures var deps := Stage(k)[m].deps;
      deps == OF_OLD_Q || deps == OF_NEW_Q || deps == OF_OLD_T || deps == []
    ensures Stage(k)[m].deps == OF_OLD_Q ==> k >= 3
    ensures Stage(k)[m].deps == OF_NEW_Q ==> k == 1 || k == 2
    ensures Stage(k)[m].deps == OF_OLD_T ==> k >= 2
  {
    assert OF_OLD_Q[0].spec.VersionDep? && OF_OLD_T[0].spec.PathDep? && |OF_OLD_Q| == 1 && |OF_NEW_Q| == 2;
  }

  /** A stage holds a name to 1.0.0 where its target is old. */
  lemma RangesOf(k: nat, n: string, c: Constraint)
    requires IsConstraint(PathProblem(), Stage(k), n, c)
    ensures n in Wanted(k) && (c.range == ONE_UP || (c.range == JUST_ONE && Wanted(k)[n].version == "1.0.0"))
  {
    hide DepConstraint, Stage;
    var p, sel := PathProblem(), Stage(k);
    if !RootConstraint(p, n, c) {
      var parent := c.requiredBy;
      StageDeps(k, parent);
      DepRange(parent, sel[parent].version, sel[parent].deps, n, c);
    }
  }

  lemma HeldBy(k: nat, n: string, parent: string, d: Dep)
    requires parent in Stage(k) && Stage(k)[parent].version != "" && d in Stage(k)[parent].deps
    requires d == Dep(n, VersionDep("1.0.0"))
    ensures IsConstraint(PathProblem(), Stage(k), n, Constraint(JUST_ONE, parent, Some(Stage(k)[parent].version)))
  {
    hide Stage;
  }

  lemma Constrains(k: nat, n: string)
    requires n in Wanted(k)
    ensures IsConstrained(PathProblem(), Stage(k), n)
    ensures Wanted(k)[n].version == "1.0.0" ==> exists c :: IsConstraint(PathProblem(), Stage(k), n, c) && c.range == JUST_ONE
  {
    hide IsConstraint;
    if n == "n" {
      HeldBy(k, n, "q", OF_NEW_Q[1]);
    } else {
      RootHolds(k, n);
      if n == "t" && k >= 1 { HeldBy(k, n, "q", if k <= 2 then OF_NEW_Q[0] else OF_OLD_Q[0]); }
      if n == "q" && k >= 2 { HeldBy(k, n, "t", OF_OLD_T[1]); }
    }
  }

  lemma RootHolds(k: nat, n: string)
    requires n == "q" || n == "t"
    ensures IsConstraint(PathProblem(), Stage(k), n, Constraint(ONE_UP, PROJECT, None))
  {
  }

  /** The version led to is allowed, and the highest that is. */
  lemma WantedIsHighest(k: nat, n: string)
    requires n in Wanted(k)
    ensures Allowed(PathProblem(), Stage(k), n, Wanted(k)[n].version)
    ensures forall u | Allowed(PathProblem(), Stage(k), n, u) && u != Wanted(k)[n].version ::
        Compare(PathWorld().parse(u).value, PathWorld().parse(Wanted(k)[n].version).value) < 0
  {
    hide IsConstraint, Satisfies, Compare, Stage;
    var p := PathProblem();
    Meeting();
    forall c | IsConstraint(p, Stage(k), n, c)
      ensures Satisfies(p.world.parse(Wanted(k)[n].version).value, c.range)
    {
      RangesOf(k, n, c);
    }
    Constrains(k, n);
  }

  lemma CollectedNames(k: nat, cs: Constraints)
    requires Collected(PathProblem(), Stage(k), cs)
    ensures cs.Keys == Wanted(k).Keys
  {
    hide IsConstraint;
    var p := PathProblem();
    forall n ensures n in cs <==> n in Wanted(k) {
      if n in cs {
        assert cs[n][0] in cs[n];
        RangesOf(k, n, cs[n][0]);
      }
      if n in Wanted(k) {
        Constrains(k, n);
        var c :| IsConstraint(p, Stage(k), n, c);
      }
    }
  }

  /** Picking an entry of a stage gives the entry of the next. */
  lemma WantedIsPicked(k: nat, cs: Constraints, n: string)
    requires Collected(PathProblem(), Stage(k), cs) && n in Wanted(k) && n in cs
    ensures PickedEntry(PathProblem(), n, cs[n], EntryAt(WithStubs(Stage(k), cs.Keys), n)) == Some(Wanted(k)[n])
    ensures n in Stage(k) ==> (UpToDate(PathProblem(), n, cs[n], Stage(k)[n]) <==> Stage(k)[n] == Wanted(k)[n])
  {
    hide Collected, Allowed, Matching;
    var p := PathProblem();
    WantedIsHighest(k, n);
    HighestIsChosen(p, Stage(k), cs, n, Wanted(k)[n].version);
  }

  lemma StagesDiffer(k: nat)
    requires k <= 3
    ensures WithStubs(Stage(k), Wanted(k).Keys).Keys == Stage(k + 1).Keys && Wanted(k).Keys <= Stage(k + 1).Keys
    ensures forall n | n in Wanted(k) :: Wanted(k)[n] == Stage(k + 1)[n]
    ensures forall n | n in Stage(k) && n !in Wanted(k) :: Stage(k + 1)[n] == Stage(k)[n]
    ensures (exists n | n in Wanted(k) :: n !in Stage(k) || Stage(k)[n] != Wanted(k)[n]) <==> k < 3
  {
    if k == 0 || k == 2 { assert "q" in Wanted(k) && Stage(k)["q"] != Wanted(k)["q"]; }
    if k == 1 { assert "n" in Wanted(k) && "n" !in Stage(k); }
  }

  /** Each of the first three rounds changes the selection to the next stage; the fourth
      changes nothing. */
  lemma NextStage(k: nat, ok: bool, after: Selection, changed: bool)
    requires k <= 3 && RoundOutcome(PathProblem(), Stage(k), ok, after, changed)
    ensures ok && after == Stage(k + 1) && (changed <==> k < 3)
  {
    hide Collected, PickedEntry, UpToDate, Pickable, PickedAll, Stage, Wanted, PathProblem, EntryAt;
    var p := PathProblem();
    var cs: Constraints :| RoundBy(p, Stage(k), cs, ok, after, changed);
    CollectedNames(k, cs);
    forall n | n in cs
      ensures PickedEntry(p, n, cs[n], EntryAt(WithStubs(Stage(k), cs.Keys), n)) == Some(Wanted(k)[n])
      ensures n in Stage(k) ==> (UpToDate(p, n, cs[n], Stage(k)[n]) <==> Stage(k)[n] == Wanted(k)[n])
    {
      WantedIsPicked(k, cs, n);
    }
    StagesDiffer(k);
    PickedIs(p, cs, WithStubs(Stage(k), cs.Keys), Stage(k + 1));
  }

  lemma RangesRead(k: nat)
    ensures RangesParse(PathProblem(), Stage(k))
  {
    hide Stage;
    forall m | m in Stage(k)
      ensures forall d | d in Stage(k)[m].deps && d.spec.VersionDep? :: PathWorld().parseReq(d.spec.range).Some?
    {
      StageDeps(k, m);
    }
  }

  lemma PathsThere(k: nat)
    ensures PathsFollowed(Stage(k))
  {
    forall m | m in Stage(k) ensures PathDepsIn(Stage(k)[m], Stage(k)) { StageDeps(k, m); }
  }

  lemma RootsNeed(k: nat)
    ensures forall n | n in Stage(k) && n !in Wanted(k) :: n in RootNeeds(PathProblem(), Stage(k))
  {
    var p := PathProblem();
    if k >= 3 {
      assert Names(OF_OLD_T)[0] == "n";
      assert "t" in p.rootDeps.Keys && "t" in Stage(k) && "n" in NameSet(Stage(k)["t"].deps);
    }
  }

  lemma StagePlain(k: nat)
    ensures Plain(PathProblem(), Stage(k))
  {
    hide IsConstrained, RangesParse, PathsFollowed, Stage, Wanted, RootNeeds;
    var p := PathProblem();
    assert "q" in p.rootDeps.Keys;
    RangesRead(k);
    PathsThere(k);
    RootsNeed(k);
    forall n | n in Stage(k) && n in Wanted(k) ensures IsConstrained(p, Stage(k), n) { Constrains(k, n); }
  }

  lemma HigherAllowed()
    ensures !IsConstrained(PathProblem(), Stage(4), "n")
    ensures Allowed(PathProblem(), Stage(4), "n", "1.1.0") && !RightVersion(PathProblem(), Stage(4), "n", "1.0.0")
  {
    hide IsConstraint;
    var p := PathProblem();
    forall c ensures !IsConstraint(p, Stage(4), "n", c) {
      if IsConstraint(p, Stage(4), "n", c) { RangesOf(4, "n", c); }
    }
    Meeting();
    PrecedenceIsTotalOrder(ONE, ONE_ONE, ONE);
  }

  /** The selections from the seed on. */
  function Stages(): seq<Selection> {
    [Stage(0), Stage(1), Stage(2), Stage(3), Stage(4)]
  }

  lemma StageLeads(k: nat)
    requires k <= 3
    ensures LeadsTo(PathProblem(), Stage(k), Stage(k + 1), k == 3)
  {
    hide Plain, RoundOutcome, Stage, PathProblem;
    var p := PathProblem();
    StagePlain(k);
    forall ok, after: Selection, changed | RoundOutcome(p, Stage(k), ok, after, changed)
      ensures ok && after == Stage(k + 1) && (changed <==> k < 3)
    {
      NextStage(k, ok, after, changed);
    }
  }

  lemma SeedAndEnd()
    ensures IsSeed(PathProblem(), Stage(0)) && AllPicked(Stage(4))
    ensures forall n | n in PathProblem().rootDeps && PathProblem().rootDeps[n].VersionDep? ::
        PathProblem().world.parseReq(PathProblem().rootDeps[n].range).Some?
  {
  }

  lemma RunIsPlain()
    ensures PlainRun(PathProblem(), Stages())
  {
    hide Plain, RoundOutcome, Stage;
    var p, stages := PathProblem(), Stages();
    forall k | 0 <= k < 4 ensures LeadsTo(p, stages[k], stages[k + 1], k == 3) {
      assert stages[k] == Stage(k) && stages[k + 1] == Stage(k + 1);
      StageLeads(k);
    }
    SeedAndEnd();
  }

  /** The resolver's own run ends with a selection that it takes for resolved and that holds
      `n` from the registry, unconstrained, at 1.0.0, while 1.1.0 is published. */
  method KeepStalePackage() returns (packages: map<string, ResolvedPackage>)
    ensures "n" in packages && packages["n"].version == "1.0.0" && packages["n"].source == REGISTRY
    ensures Resolved(PathProblem(), Stage(4)) && IsResult(PathProblem(), Stage(4), packages)
    ensures !IsConstrained(PathProblem(), Stage(4), "n") && Allowed(PathProblem(), Stage(4), "n", "1.1.0")
    ensures !RightVersion(PathProblem(), Stage(4), "n", "1.0.0")
  {
    hide PlainRun, Resolved, IsConstrained, RightVersion, Allowed, IsResult;
    RunIsPlain();
    var r := ResolveDependencies(PathProblem(), Stages());
    packages := r.value;
    HigherAllowed();
    ResultHasPackage(packages);
  }

  lemma ResultHasPackage(packages: map<string, ResolvedPackage>)
    requires IsResult(PathProblem(), Stage(4), packages)
    ensures "n" in packages && packages["n"].version == "1.0.0" && packages["n"].source == REGISTRY
  {
  }
}
