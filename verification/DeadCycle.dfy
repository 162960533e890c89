/** A run of the resolver that keeps packages nothing needs: a dependency cycle that was
    once reached, and whose members constrain each other. */
module DeadCycle {
  import opened Common
  import opened Graphs
  import opened SemVer
  import opened Releases
  import opened DependencyGraph
  import opened Resolve
  import opened Resolver

  const OF_NEW_R := [Dep("a", VersionDep("^1.0.0"))]
  const OF_A := [Dep("b", VersionDep("^1.0.0"))]
  const OF_B := [Dep("a", VersionDep("^1.0.0")), Dep("r", VersionDep("1.0.0"))]

  /** `r` 1.1.0 needs `a`, which needs `b`, which needs `a` and exactly `r` 1.0.0, which
      needs nothing. */
  function CycleWorld(): World {
    World(v => ReadVersion(v), r => ReadRange(r),
          map["r" := ["1.0.0", "1.1.0"], "a" := ["1.0.0"], "b" := ["1.0.0"]],
          map[("r", "1.0.0") := Manifest("r", "1.0.0", "w", []),
              ("r", "1.1.0") := Manifest("r", "1.1.0", "x", OF_NEW_R),
              ("a", "1.0.0") := Manifest("a", "1.0.0", "y", OF_A),
              ("b", "1.0.0") := Manifest("b", "1.0.0", "z", OF_B)],
          (from, path) => path, map[])
  }

  function CycleProblem(): Problem {
    Problem(CycleWorld(), "", map["r" := VersionDep("^1.0.0")], map[], {}, map[], {"r"})
  }

  const OLD_R := Selected("1.0.0", "w", REGISTRY, [], false, None)
  const NEW_R := Selected("1.1.0", "x", REGISTRY, OF_NEW_R, false, None)
  const A := Selected("1.0.0", "y", REGISTRY, OF_A, false, None)
  const B := Selected("1.0.0", "z", REGISTRY, OF_B, false, None)

  /** The selection after `k` rounds. */
  function Stage(k: nat): Selection {
    if k == 0 then map["r" := STUB]
    else if k == 1 then map["r" := NEW_R]
    else if k == 2 then map["r" := NEW_R, "a" := A]
    else if k == 3 then map["r" := NEW_R, "a" := A, "b" := B]
    else map["r" := OLD_R, "a" := A, "b" := B]
  }

  /** The names a stage constrains, and the version each is led to. */
  function Wanted(k: nat): map<string, Selected> {
    if k == 0 then map["r" := NEW_R]
    else if k == 1 then map["r" := NEW_R, "a" := A]
    else if k == 2 then map["r" := NEW_R, "a" := A, "b" := B]
    else map["r" := OLD_R, "a" := A, "b" := B]
  }

  lemma RangesOf(k: nat, n: string, c: Constraint)
    requires IsConstraint(CycleProblem(), Stage(k), n, c)
    ensures n in Wanted(k)
    ensures c.range == ONE_UP || (n == "r" && k >= 3 && c.range == JUST_ONE)
  {
    var p, sel := CycleProblem(), Stage(k);
    if !RootConstraint(p, n, c) {
      var parent := c.requiredBy;
      var d :| d in sel[parent].deps && d.name == n && d.spec.VersionDep?
               && p.world.parseReq(d.spec.range) == Some(c.range);
      assert parent == "r" || parent == "a" || parent == "b";
    }
  }

  lemma Constrains(k: nat, n: string)
    requires n in Wanted(k)
    ensures IsConstrained(CycleProblem(), Stage(k), n)
    ensures n == "r" && k >= 3 ==>
      IsConstraint(CycleProblem(), Stage(k), n, Constraint(JUST_ONE, "b", Some("1.0.0")))
  {
    var p, sel := CycleProblem(), Stage(k);
    if n == "r" {
      assert IsConstraint(p, sel, n, Constraint(ONE_UP, PROJECT, None));
      if k >= 3 {
        assert OF_B[1] in sel["b"].deps;
        assert DepConstraint(p, "b", sel["b"].version, sel["b"].deps, n, Constraint(JUST_ONE, "b", Some("1.0.0")));
      }
    } else if n == "a" {
      var parent := if k <= 3 then "r" else "b";
      assert OF_NEW_R[0] == OF_B[0] && OF_NEW_R[0] in sel[parent].deps;
      assert IsConstraint(p, sel, n, Constraint(ONE_UP, parent, Some(sel[parent].version)));
    } else {
      assert OF_A[0] in sel["a"].deps;
      assert IsConstraint(p, sel, n, Constraint(ONE_UP, "a", Some("1.0.0")));
    }
  }

  /** The version led to is allowed, and the highest that is. */
  lemma WantedIsHighest(k: nat, n: string)
    requires n in Wanted(k)
    ensures Allowed(CycleProblem(), Stage(k), n, Wanted(k)[n].version)
    ensures forall u | Allowed(CycleProblem(), Stage(k), n, u) && u != Wanted(k)[n].version ::
        Compare(CycleWorld().parse(u).value, CycleWorld().parse(Wanted(k)[n].version).value) < 0
  {
    hide IsConstraint, Satisfies, Compare, Stage;
    var p := CycleProblem();
    Meeting();
    forall c | IsConstraint(p, Stage(k), n, c)
      ensures Satisfies(p.world.parse(Wanted(k)[n].version).value, c.range)
    {
      RangesOf(k, n, c);
    }
    Constrains(k, n);
  }

  lemma CollectedNames(k: nat, cs: Constraints)
    requires Collected(CycleProblem(), Stage(k), cs)
    ensures cs.Keys == Wanted(k).Keys && Stage(k).Keys <= cs.Keys
  {
    hide IsConstraint;
    var p := CycleProblem();
    forall n ensures n in cs <==> n in Wanted(k) {
      if n in cs {
        assert cs[n][0] in cs[n];
        RangesOf(k, n, cs[n][0]);
      }
      if n in Wanted(k) {
        Constrains(k, n);
        var c :| IsConstraint(p, Stage(k), n, c);
      }
    }
  }

  /** Picking an entry of a stage gives the entry of the next. */
  lemma WantedIsPicked(k: nat, cs: Constraints, n: string)
    requires Collected(CycleProblem(), Stage(k), cs) && n in Wanted(k) && n in cs
    ensures PickedEntry(CycleProblem(), n, cs[n], EntryAt(WithStubs(Stage(k), cs.Keys), n)) == Some(Wanted(k)[n])
    ensures n in Stage(k) ==> (UpToDate(CycleProblem(), n, cs[n], Stage(k)[n]) <==> Stage(k)[n] == Wanted(k)[n])
  {
    hide Collected, Allowed, Matching;
    var p := CycleProblem();
    WantedIsHighest(k, n);
    HighestIsChosen(p, Stage(k), cs, n, Wanted(k)[n].version);
  }

  lemma StagesDiffer(k: nat)
    requires k <= 4
    ensures Wanted(k) == Stage(k + 1)
    ensures (exists n | n in Wanted(k) :: n !in Stage(k) || Stage(k)[n] != Wanted(k)[n]) <==> k < 4
  {
    if k == 0 || k == 3 { assert "r" in Wanted(k) && Stage(k)["r"] != Wanted(k)["r"]; }
    if k == 1 { assert "a" in Wanted(k) && "a" !in Stage(k); }
    if k == 2 { assert "b" in Wanted(k) && "b" !in Stage(k); }
  }

  /** Each of the first four rounds changes the selection to the next stage; the fifth
      changes nothing. */
  lemma NextStage(k: nat, ok: bool, after: Selection, changed: bool)
    requires k <= 4 && RoundOutcome(CycleProblem(), Stage(k), ok, after, changed)
    ensures ok && after == Stage(k + 1) && (changed <==> k < 4)
  {
    hide Collected, PickedEntry, UpToDate, Pickable, PickedAll, Stage, Wanted, CycleProblem, EntryAt;
    var p := CycleProblem();
    var cs: Constraints :| RoundBy(p, Stage(k), cs, ok, after, changed);
    CollectedNames(k, cs);
    forall n | n in cs
      ensures PickedEntry(p, n, cs[n], EntryAt(WithStubs(Stage(k), cs.Keys), n)) == Some(Wanted(k)[n])
      ensures n in Stage(k) ==> (UpToDate(p, n, cs[n], Stage(k)[n]) <==> Stage(k)[n] == Wanted(k)[n])
    {
      WantedIsPicked(k, cs, n);
    }
    PickedIs(p, cs, WithStubs(Stage(k), cs.Keys), Wanted(k));
    StagesDiffer(k);
  }

  lemma StageReads(k: nat)
    ensures PathsFollowed(Stage(k)) && Stage(k).Keys <= Wanted(k).Keys
  {
  }

  lemma StageParses(k: nat)
    ensures RangesParse(CycleProblem(), Stage(k))
  {
    hide Wanted;
  }

  lemma StagePlain(k: nat)
    ensures Plain(CycleProblem(), Stage(k))
  {
    hide IsConstrained, RangesParse, PathsFollowed, Stage, Wanted;
    var p := CycleProblem();
    assert "r" in p.rootDeps.Keys;
    StageReads(k);
    StageParses(k);
    forall n | n in Stage(k) ensures IsConstrained(p, Stage(k), n) { Constrains(k, n); }
  }

  lemma CycleUnreached()
    ensures !ReachedFrom(GraphOf(Stage(5)), {"r"}, "a")
  {
    hide ReachedFrom;
    ClosedSetHoldsReached(GraphOf(Stage(5)), {"r"}, {"r"});
  }

  /** The selections from the seed on. */
  function Stages(): seq<Selection> {
    [Stage(0), Stage(1), Stage(2), Stage(3), Stage(4), Stage(5)]
  }

  lemma RunIsPlain()
    ensures PlainRun(CycleProblem(), Stages())
  {
    hide Plain, RoundOutcome, Stage;
    var p, stages := CycleProblem(), Stages();
    forall k | 0 <= k < 5 ensures LeadsTo(p, stages[k], stages[k + 1], k == 4) {
      assert stages[k] == Stage(k) && stages[k + 1] == Stage(k + 1);
      StageLeads(k);
    }
    SeedAndEnd();
  }

  lemma StageLeads(k: nat)
    requires k <= 4
    ensures LeadsTo(CycleProblem(), Stage(k), Stage(k + 1), k == 4)
  {
    hide Plain, RoundOutcome, Stage, CycleProblem;
    var p := CycleProblem();
    StagePlain(k);
    forall ok, after: Selection, changed | RoundOutcome(p, Stage(k), ok, after, changed)
      ensures ok && after == Stage(k + 1) && (changed <==> k < 4)
    {
      NextStage(k, ok, after, changed);
    }
  }

  lemma SeedAndEnd()
    ensures IsSeed(CycleProblem(), Stage(0)) && AllPicked(Stage(5))
    ensures forall n | n in CycleProblem().rootDeps && CycleProblem().rootDeps[n].VersionDep? ::
        CycleProblem().world.parseReq(CycleProblem().rootDeps[n].range).Some?
  {
  }

  /** The resolver's own run ends with a selection that it takes for resolved and that holds
      two packages nothing needs. */
  method KeepDeadCycle() returns (packages: map<string, ResolvedPackage>)
    ensures packages.Keys == {"r", "a", "b"} && IsResult(CycleProblem(), Stage(5), packages)
    ensures Resolved(CycleProblem(), Stage(5)) && !ReachedFrom(GraphOf(Stage(5)), CycleProblem().rootDeps.Keys, "a")
    ensures !CyclesReached(GraphOf(Stage(5)), CycleProblem().rootDeps.Keys)
  {
    hide PlainRun, Resolved, IsResult, ReachedFrom;
    RunIsPlain();
    var r := ResolveDependencies(CycleProblem(), Stages());
    packages := r.value;
    CycleUnreached();
    assert CycleProblem().rootDeps.Keys == {"r"};
    ResultKeys(Stage(5), packages);
    SelectionIsReachableIff(CycleProblem(), Stage(5));
  }

  lemma ResultKeys(sel: Selection, packages: map<string, ResolvedPackage>)
    requires IsResult(CycleProblem(), sel, packages)
    ensures packages.Keys == sel.Keys
  {
  }
}
