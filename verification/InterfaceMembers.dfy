/** What an interface declaration comes to: its own methods behind those of its bases, and
    exactly when it is in order. */
module InterfaceMembers {
  import opened Common
  import opened Types
  import opened Interfaces

  /* ---------- Own methods ---------- */

  /** The declared methods can stand behind methods with the names `seen`. */
  predicate OwnOk(own: seq<InterfaceMethodDecl>, seen: set<string>) {
    (forall i | 0 <= i < |own| :: own[i].sig.Some? && own[i].name !in seen)
    && forall i, j | 0 <= i < j < |own| :: own[i].name != own[j].name
  }

  /** The table ends with exactly the declared methods, in order. */
  predicate EndsWithOwn(ms: seq<InterfaceMethod>, own: seq<InterfaceMethodDecl>) {
    |own| <= |ms|
    && forall k | 0 <= k < |own| ::
         var m := ms[|ms| - |own| + k];
         m.name == own[k].name && own[k].sig == Some(m.sig)
  }

  lemma OwnOkFront(own: seq<InterfaceMethodDecl>, seen: set<string>)
    requires own != []
    ensures OwnOk(own, seen) <==> own[0].sig.Some? && own[0].name !in seen && OwnOk(own[1..], seen + {own[0].name})
  {
    var rest := own[1..];
    assert forall j | 0 <= j < |rest| :: rest[j] == own[j + 1];
    assert forall i | 0 < i < |own| :: own[i] == rest[i - 1];
  }

  lemma {:induction false} OwnMethodsPlaced(t: Itable, own: seq<InterfaceMethodDecl>)
    ensures AddOwnMethods(t, own).ok <==> t.ok && OwnOk(own, t.seen)
    ensures AddOwnMethods(t, own).ok ==>
      var ms := AddOwnMethods(t, own).methods;
      |ms| == |t.methods| + |own| && t.methods <= ms && EndsWithOwn(ms, own)
    decreases |own|
  {
    hide OwnOk;
    if own == [] {
      assert OwnOk(own, t.seen) by { NoneOk(t.seen); }
    } else {
      var next, rest := AddOwnMethod(t, own[0]), own[1..];
      OwnOkFront(own, t.seen);
      OwnMethodsPlaced(next, rest);
      var r := AddOwnMethods(t, own);
      if r.ok {
        forall k | 0 <= k < |own|
          ensures var m := r.methods[|r.methods| - |own| + k]; m.name == own[k].name && own[k].sig == Some(m.sig)
        {
          if k > 0 { assert rest[k - 1] == own[k]; }
        }
      }
    }
  }

  lemma NoneOk(seen: set<string>)
    ensures OwnOk([], seen)
  {
  }

  /* ---------- Methods of bases ---------- */

  predicate Agree(a: InterfaceMethod, b: InterfaceMethod) {
    a.name == b.name ==> SameSig(a.sig, b.sig)
  }

  predicate AgreeAll(xs: seq<InterfaceMethod>, ys: seq<InterfaceMethod>) {
    forall x, y | x in xs && y in ys :: Agree(x, y)
  }

  /** No two bases have methods of one name with different signatures. */
  predicate BasesAgree(bases: seq<InterfaceDef>) {
    forall i, j | 0 <= i < j < |bases| :: AgreeAll(bases[i].methods, bases[j].methods)
  }

  predicate AgreeWithBases(ms: seq<InterfaceMethod>, bases: seq<InterfaceDef>) {
    forall i | 0 <= i < |bases| :: AgreeAll(ms, bases[i].methods)
  }

  lemma SameSigTransfers(a: InterfaceMethod, b: InterfaceMethod, c: InterfaceMethod)
    requires a.name == b.name && SameSig(a.sig, b.sig)
    ensures Agree(a, c) <==> Agree(b, c)
  {
    SameShapeIsEquivalence(a.sig, b.sig, c.sig);
    SameShapeIsEquivalence(b.sig, a.sig, c.sig);
  }

  /** A method as it stands in a table, whatever its slot. */
  predicate Stands(ms: seq<InterfaceMethod>, m: InterfaceMethod) {
    exists i | 0 <= i < |ms| :: ms[i].name == m.name && ms[i].sig == m.sig
  }

  lemma BaseMethodAdded(t: Itable, m: InterfaceMethod)
    requires Coherent(t) && Names(t.methods) == t.seen
    ensures var r := AddBaseMethod(t, m);
      (r.ok <==> t.ok && AgreeAll(t.methods, [m]))
      && (forall x | x in r.methods :: x in t.methods || (x.name == m.name && x.sig == m.sig))
  {
    if m.name in t.seen {
      var existing := Find(t.methods, m.name).value;
      assert existing in t.methods && m in [m];
      forall x | x in t.methods && x.name == m.name ensures x == existing { }
    } else {
      assert forall i | 0 <= i < |t.methods| :: t.methods[i].name in Names(t.methods);
    }
  }

  lemma {:induction false} BaseMethodsAdded(t: Itable, ms: seq<InterfaceMethod>)
    requires Coherent(t) && Names(t.methods) == t.seen && DistinctNames(ms)
    ensures var r := AddBaseMethods(t, ms);
      (r.ok <==> t.ok && AgreeAll(t.methods, ms))
      && (forall x | x in r.methods :: x in t.methods || Stands(ms, x))
    decreases |ms|
  {
    hide SameSig, Coherent;
    if ms != [] {
      var m, rest := ms[0], ms[1..];
      var next := AddBaseMethod(t, m);
      BaseMethodAdded(t, m);
      AddBaseMethodFacts(t, m);
      assert forall j | 0 <= j < |rest| :: rest[j] == ms[j + 1];
      BaseMethodsAdded(next, rest);
      assert m in [m] && forall y | y in ms :: y == m || y in rest;
      forall y | y in rest ensures y.name != m.name && y in ms {
        var j :| 0 <= j < |rest| && rest[j] == y;
        assert ms[j + 1] == y;
      }
      assert AgreeAll(next.methods, rest) <==> AgreeAll(t.methods, rest) by {
        assert forall x | x in t.methods :: x in next.methods;
      }
      var r := AddBaseMethods(t, ms);
      forall x | x in r.methods ensures x in t.methods || Stands(ms, x) {
        if x in next.methods && x !in t.methods {
          assert ms[0].name == x.name;
        } else if x !in next.methods {
          var j :| 0 <= j < |rest| && rest[j].name == x.name && rest[j].sig == x.sig;
          assert ms[j + 1] == rest[j];
        }
      }
    }
  }

  /** A table that has merged a base agrees with what both of them agree with. */
  lemma MergedAgree(ms: seq<InterfaceMethod>, base: seq<InterfaceMethod>, merged: seq<InterfaceMethod>,
                    ys: seq<InterfaceMethod>)
    requires ms <= merged && (forall x | x in merged :: x in ms || Stands(base, x))
    requires forall m | m in base :: Provides(merged, m)
    ensures AgreeAll(merged, ys) <==> AgreeAll(ms, ys) && AgreeAll(base, ys)
  {
    hide SameSig;
    if AgreeAll(merged, ys) {
      forall x, y | x in base && y in ys ensures Agree(x, y) {
        var i :| 0 <= i < |merged| && merged[i].name == x.name && SameSig(merged[i].sig, x.sig);
        SameSigTransfers(merged[i], x, y);
        assert merged[i] in merged;
      }
      assert forall x | x in ms :: x in merged;
    } else if AgreeAll(ms, ys) && AgreeAll(base, ys) {
      forall x, y | x in merged && y in ys ensures Agree(x, y) {
        if x !in ms {
          var i :| 0 <= i < |base| && base[i].name == x.name && base[i].sig == x.sig;
          assert base[i] in base && Agree(base[i], y);
        }
      }
    }
  }

  predicate FromBases(m: InterfaceMethod, bases: seq<InterfaceDef>) {
    exists b | b in bases :: Stands(b.methods, m)
  }

  lemma BasesAgreeFront(bases: seq<InterfaceDef>)
    requires bases != []
    ensures BasesAgree(bases) <==> AgreeWithBases(bases[0].methods, bases[1..]) && BasesAgree(bases[1..])
  {
    hide AgreeAll;
    var rest := bases[1..];
    assert forall j | 0 <= j < |rest| :: rest[j] == bases[j + 1];
    assert forall i | 0 < i < |bases| :: bases[i] == rest[i - 1];
  }

  lemma AgreeWithFront(ms: seq<InterfaceMethod>, bases: seq<InterfaceDef>)
    requires bases != []
    ensures AgreeWithBases(ms, bases) <==> AgreeAll(ms, bases[0].methods) && AgreeWithBases(ms, bases[1..])
  {
    hide AgreeAll;
    var rest := bases[1..];
    assert forall j | 0 <= j < |rest| :: rest[j] == bases[j + 1];
    assert forall i | 0 < i < |bases| :: bases[i] == rest[i - 1];
  }

  /** The bases can be merged exactly when they agree with each other and with the table,
      and what they add is theirs. */
  lemma {:induction false} BasesAdded(t: Itable, bases: seq<InterfaceDef>)
    requires Coherent(t) && Names(t.methods) == t.seen && forall b | b in bases :: DistinctNames(b.methods)
    ensures var r := AddBases(t, bases);
      (r.ok <==> t.ok && AgreeWithBases(t.methods, bases) && BasesAgree(bases))
      && (forall x | x in r.methods :: x in t.methods || FromBases(x, bases))
    decreases |bases|
  {
    hide Coherent, AgreeAll, DistinctNames, Stands, Provides, BasesAgree, AgreeWithBases;
    if bases == [] {
      assert BasesAgree(bases) && AgreeWithBases(t.methods, bases) by { NoBases(t.methods); }
    } else {
      var b, rest := bases[0], bases[1..];
      var next := AddBase(t, b);
      var recorded := t.(offsets := RecordOffsets(t.offsets, |t.methods|, b));
      assert Coherent(recorded) by { RecordedCoherent(t, recorded); }
      BaseMethodsAdded(recorded, b.methods);
      AddBaseFacts(t, b);
      BasesAdded(next, rest);
      AddBasesFacts(next, rest);
      BasesAgreeFront(bases);
      AgreeWithFront(t.methods, bases);
      if next.ok { MergedAgreeWithBases(t.methods, b.methods, next.methods, rest); }
      forall x | x in AddBases(t, bases).methods ensures x in t.methods || FromBases(x, bases) {
        if x in next.methods {
          assert b in bases;
        } else {
          var c :| c in rest && Stands(c.methods, x);
          assert c in bases;
        }
      }
    }
  }

  lemma NoBases(ms: seq<InterfaceMethod>)
    ensures BasesAgree([]) && AgreeWithBases(ms, [])
  {
  }

  lemma RecordedCoherent(t: Itable, r: Itable)
    requires Coherent(t) && r.methods == t.methods && r.seen == t.seen
    ensures Coherent(r)
  {
  }

  lemma MergedAgreeWithBases(ms: seq<InterfaceMethod>, base: seq<InterfaceMethod>, merged: seq<InterfaceMethod>,
                             rest: seq<InterfaceDef>)
    requires ms <= merged && (forall x | x in merged :: x in ms || Stands(base, x))
    requires forall m | m in base :: Provides(merged, m)
    ensures AgreeWithBases(merged, rest) <==> AgreeWithBases(ms, rest) && AgreeWithBases(base, rest)
  {
    hide AgreeAll, Stands, Provides;
    forall i | 0 <= i < |rest|
      ensures AgreeAll(merged, rest[i].methods) <==> AgreeAll(ms, rest[i].methods) && AgreeAll(base, rest[i].methods)
    {
      MergedAgree(ms, base, merged, rest[i].methods);
    }
  }

  /* ---------- Whole declarations ---------- */

  /** An itable is accepted exactly when no two bases disagree on a method, and the declared
      methods resolve and are new. */
  lemma ItableOkIff(name: string, bases: seq<InterfaceDef>, own: seq<InterfaceMethodDecl>)
    requires forall b | b in bases :: Finished(b)
    ensures LayoutItable(name, bases, own).ok <==> BasesAgree(bases) && OwnOk(own, BaseMethodNames(bases))
  {
    hide Finished, BasesAgree, OwnOk, DistinctNames, AgreeWithBases, Coherent, AddBases, AddOwnMethods, FromBases, Provides;
    var start := EmptyItable(name);
    forall b | b in bases ensures DistinctNames(b.methods) { NumberedNames(b); }
    assert Coherent(start) by { EmptyCoherent(name); }
    BasesAdded(start, bases);
    AddBasesFacts(start, bases);
    NothingAgrees(bases);
    var merged := AddBases(start, bases);
    assert merged.seen == BaseMethodNames(bases);
    OwnMethodsPlaced(merged, own);
  }

  lemma NothingAgrees(bases: seq<InterfaceDef>)
    ensures AgreeWithBases([], bases)
  {
  }

  lemma EmptyCoherent(name: string)
    ensures Coherent(EmptyItable(name))
  {
  }

  lemma NumberedNames(b: InterfaceDef)
    requires Finished(b)
    ensures DistinctNames(b.methods)
  {
    hide Finished;
    FinishedTable(b);
  }

  /** The table of an interface holds methods of its bases, and behind them exactly its own
      declared ones in order. */
  lemma ItableMembers(d: InterfaceDef)
    requires Finished(d)
    ensures EndsWithOwn(d.methods, d.decl.methods)
    ensures forall i | 0 <= i < |d.methods| - |d.decl.methods| :: FromBases(d.methods[i], d.bases)
  {
    hide EndsWithOwn, FromBases, DistinctNames, OwnOk;
    var start := EmptyItable(d.name);
    forall b | b in d.bases ensures DistinctNames(b.methods) { NumberedNames(b); }
    EmptyCoherent(d.name);
    BasesAdded(start, d.bases);
    var t := AddBases(start, d.bases);
    OwnMethodsPlaced(t, d.decl.methods);
    forall i | 0 <= i < |d.methods| - |d.decl.methods| ensures FromBases(d.methods[i], d.bases) {
      assert d.methods[i] == t.methods[i] && t.methods[i] in t.methods;
    }
  }
}
