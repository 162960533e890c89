/** Collecting the interfaces of one module: the depth-first walk over `extends`
    lists and the loops that lay out each itable. */
module InterfaceCollection {
  import opened Common
  import opened Types
  import opened Interfaces

  function Mangle(moduleId: string, name: string): string {
    if moduleId == "" then name else moduleId + "__" + name
  }

  lemma MangleInjective(moduleId: string, a: string, b: string)
    requires Mangle(moduleId, a) == Mangle(moduleId, b)
    ensures a == b
  {
    if moduleId != "" {
      var prefix := moduleId + "__";
      assert (prefix + a)[|prefix|..] == a && (prefix + b)[|prefix|..] == b;
    }
  }

  lemma {:induction false} RegisteredGrows(env: map<string, InterfaceDef>, larger: map<string, InterfaceDef>,
                                           d: InterfaceDef)
    requires Registered(env, d) && forall n | n in env :: n in larger && larger[n] == env[n]
    ensures Registered(larger, d)
  {
    forall b | b in d.bases ensures Registered(larger, b) {
      RegisteredGrows(env, larger, b);
    }
  }

  /** One base: its offsets, then its methods that have no slot yet. */
  method LayOutBase(start: Itable, base: InterfaceDef) returns (t: Itable)
    ensures t == AddBase(start, base)
  {
    var methods, seen, ok := start.methods, start.seen, start.ok;
    var offsets := RecordBase(start.offsets, |methods|, base);
    var j := 0;
    while j < |base.methods|
      invariant 0 <= j <= |base.methods|
      invariant AddBaseMethods(Itable(methods, offsets, seen, ok), base.methods[j..]) == AddBase(start, base)
    {
      var m := base.methods[j];
      assert base.methods[j..][0] == m && base.methods[j..][1..] == base.methods[j + 1..];
      if m.name in seen {
        var existing := Find(methods, m.name);
        if existing.None? || !SameSig(existing.value.sig, m.sig) {
          ok := false;
        }
      } else {
        seen := seen + {m.name};
        methods := methods + [InterfaceMethod(m.name, m.sig, |methods|)];
      }
      j := j + 1;
    }
    t := Itable(methods, offsets, seen, ok);
  }

  /** The two layout loops: base tables first, then the interface's own methods. */
  method LayOut(name: string, bases: seq<InterfaceDef>, own: seq<InterfaceMethodDecl>) returns (t: Itable)
    ensures t == LayoutItable(name, bases, own)
  {
    hide AddBase, AddOwnMethod;
    t := EmptyItable(name);
    var i := 0;
    while i < |bases|
      invariant 0 <= i <= |bases|
      invariant AddBases(t, bases[i..]) == AddBases(EmptyItable(name), bases)
    {
      assert bases[i..][0] == bases[i] && bases[i..][1..] == bases[i + 1..];
      t := LayOutBase(t, bases[i]);
      i := i + 1;
    }
    t := LayOutOwn(t, own);
  }

  /** The interface's own methods; a name taken before or a bad signature is an error. */
  method LayOutOwn(inherited: Itable, own: seq<InterfaceMethodDecl>) returns (t: Itable)
    ensures t == AddOwnMethods(inherited, own)
  {
    var methods, offsets, seen, ok := inherited.methods, inherited.offsets, inherited.seen, inherited.ok;
    var i := 0;
    while i < |own|
      invariant 0 <= i <= |own|
      invariant AddOwnMethods(Itable(methods, offsets, seen, ok), own[i..]) == AddOwnMethods(inherited, own)
    {
      var m := own[i];
      assert own[i..][0] == m && own[i..][1..] == own[i + 1..];
      if m.name in seen {
        ok := false;
      } else {
        seen := seen + {m.name};
        if m.sig.Some? {
          methods := methods + [InterfaceMethod(m.name, m.sig.value, |methods|)];
        } else {
          ok := false;
        }
      }
      i := i + 1;
    }
    t := Itable(methods, offsets, seen, ok);
  }

  method RecordBase(offsets: map<string, nat>, at: nat, base: InterfaceDef) returns (r: map<string, nat>)
    ensures r == RecordOffsets(offsets, at, base)
  {
    r := offsets[base.name := at];
    ghost var direct := r;
    var todo := base.offsets.Keys;
    while todo != {}
      invariant todo <= base.offsets.Keys
      invariant r.Keys == direct.Keys + (base.offsets.Keys - todo)
      invariant forall n | n in direct :: r[n] == direct[n]
      invariant forall n | n in r && n !in direct :: n in base.offsets && r[n] == at + base.offsets[n]
      decreases todo
    {
      var n :| n in todo;
      if n !in r {
        r := r[n := at + base.offsets[n]];
      }
      todo := todo - {n};
    }
    assert r == Shift(base.offsets, at) + direct;
  }

  /* ---------- The walk ---------- */

  /** What the walk reads and never changes. `unclaimed` says that no earlier module has taken
      the mangled names of this one: module ids come from file names, so names can
      collide, and then the later definition replaces the earlier one in the table. */
  datatype Sources = Sources(
    moduleId: string,
    unclaimed: bool,
    byLocal: map<string, InterfaceDecl>,
    imported: map<string, InterfaceDef>,
    namespaces: map<string, map<string, InterfaceDef>>)

  /** What the walk changes; `failed` records that a diagnostic was reported. */
  datatype Progress = Progress(
    interfaces: map<string, InterfaceDef>,
    byMangled: map<string, InterfaceDef>,
    visiting: set<string>,
    done: set<string>,
    failed: bool)

  /** `b` is the finished definition that the reference names. */
  ghost predicate Resolves(src: Sources, p: Progress, ref: TypeRef, b: InterfaceDef) {
    if ref.namespace.Some? then
      ref.namespace.value in src.namespaces && ref.name in src.namespaces[ref.namespace.value]
      && b == src.namespaces[ref.namespace.value][ref.name]
    else if ref.name in src.byLocal then
      ref.name in p.done && ref.name in p.interfaces && b == p.interfaces[ref.name]
    else
      ref.name in src.imported && b == src.imported[ref.name]
  }

  ghost predicate AllResolve(src: Sources, p: Progress, refs: seq<TypeRef>, bases: seq<InterfaceDef>) {
    |bases| == |refs| && forall i | 0 <= i < |bases| :: Resolves(src, p, refs[i], bases[i])
  }

  /** The definition is what its declaration asks for, over finished bases. */
  ghost predicate Complete(src: Sources, p: Progress, n: string, d: InterfaceDef) {
    n in src.byLocal && d.name == Mangle(src.moduleId, n) && d.decl == src.byLocal[n]
    && Usable(src, p, d) && d.name in p.byMangled && p.byMangled[d.name] == d
    && AllResolve(src, p, d.decl.bases, d.bases)
  }

  /** The names of the module that are still to be entered into the table. */
  function Pending(src: Sources, p: Progress): set<string> {
    OwnNames(src.moduleId, src.byLocal.Keys - p.done)
  }

  lemma NotPending(src: Sources, p: Progress, n: string)
    requires n in p.done
    ensures Mangle(src.moduleId, n) !in Pending(src, p)
  {
    hide Mangle;
    if k :| k in src.byLocal.Keys - p.done && Mangle(src.moduleId, k) == Mangle(src.moduleId, n) {
      MangleInjective(src.moduleId, k, n);
    }
  }

  ghost predicate Usable(src: Sources, p: Progress, d: InterfaceDef) {
    Finished(d) && (src.unclaimed ==> Registered(p.byMangled, d))
  }

  ghost predicate AllUsable(src: Sources, p: Progress, bases: seq<InterfaceDef>) {
    forall b | b in bases :: Usable(src, p, b)
  }

  ghost predicate Invariant(src: Sources, p: Progress) {
    p.visiting <= src.byLocal.Keys && p.done <= src.byLocal.Keys && p.visiting !! p.done
    && p.interfaces.Keys <= src.byLocal.Keys
    && (forall n | n in p.done :: if n in p.interfaces then Complete(src, p, n, p.interfaces[n]) else p.failed)
    && (src.unclaimed ==> forall n | n in src.byLocal && n !in p.done :: Mangle(src.moduleId, n) !in p.byMangled)
    && AllFinished(p.byMangled) && (src.unclaimed ==> AllRegistered(p.byMangled))
    && (forall n | n in src.imported :: Usable(src, p, src.imported[n]))
    && (forall s, n | s in src.namespaces && n in src.namespaces[s] :: Usable(src, p, src.namespaces[s][n]))
  }

  lemma InvariantBasics(src: Sources, p: Progress)
    requires Invariant(src, p)
    ensures p.visiting <= src.byLocal.Keys && p.done <= src.byLocal.Keys && p.visiting !! p.done
    ensures forall n | n in p.done && n !in p.interfaces :: p.failed
  {
  }

  lemma ExtendsTransitive(src: Sources, p: Progress, q: Progress, r: Progress)
    requires Extends(src, p, q) && Extends(src, q, r)
    ensures Extends(src, p, r)
  {}

  /** More is done and nothing already done is touched. */
  ghost predicate Extends(src: Sources, p: Progress, q: Progress) {
    p.done <= q.done && (p.failed ==> q.failed)
    && (forall n | n in p.done :: (n in p.interfaces <==> n in q.interfaces)
          && (n in p.interfaces ==> q.interfaces[n] == p.interfaces[n]))
    && q.byMangled.Keys <= p.byMangled.Keys + OwnNames(src.moduleId, src.byLocal.Keys)
    && (forall n | n in p.byMangled && n !in Pending(src, p) :: n in q.byMangled && q.byMangled[n] == p.byMangled[n])
    && (src.unclaimed ==> forall n | n in p.byMangled :: n in q.byMangled && q.byMangled[n] == p.byMangled[n])
  }

  /** The mangled names of a module's declarations. */
  function OwnNames(moduleId: string, names: set<string>): set<string> {
    set n | n in names :: Mangle(moduleId, n)
  }

  /** Every entry is finished, under its own name. */
  ghost predicate AllFinished(table: map<string, InterfaceDef>) {
    forall n | n in table :: table[n].name == n && Finished(table[n])
  }

  ghost predicate AllRegistered(table: map<string, InterfaceDef>) {
    forall n | n in table :: Registered(table, table[n])
  }

  lemma UsableGrows(src: Sources, p: Progress, q: Progress, d: InterfaceDef)
    requires Extends(src, p, q) && Usable(src, p, d)
    ensures Usable(src, q, d)
  {
    if src.unclaimed { RegisteredGrows(p.byMangled, q.byMangled, d); }
  }

  lemma ExtendsKeeps(src: Sources, p: Progress, q: Progress, refs: seq<TypeRef>, bases: seq<InterfaceDef>)
    requires Extends(src, p, q) && AllResolve(src, p, refs, bases) && AllUsable(src, p, bases)
    ensures AllResolve(src, q, refs, bases) && AllUsable(src, q, bases)
  {
    forall b | b in bases ensures Usable(src, q, b) {
      UsableGrows(src, p, q, b);
    }
    forall i | 0 <= i < |bases| ensures Resolves(src, q, refs[i], bases[i]) {
      assert Resolves(src, p, refs[i], bases[i]);
    }
  }

  lemma CompleteKept(src: Sources, p: Progress, q: Progress, n: string, d: InterfaceDef)
    requires Extends(src, p, q) && Complete(src, p, n, d) && n in p.done
    ensures Complete(src, q, n, d)
  {
    forall b | b in d.bases ensures Usable(src, p, b) {}
    ExtendsKeeps(src, p, q, d.decl.bases, d.bases);
    UsableGrows(src, p, q, d);
    NotPending(src, p, n);
  }

  lemma ResolvedIsUsable(src: Sources, p: Progress, ref: TypeRef, b: InterfaceDef)
    requires Invariant(src, p) && Resolves(src, p, ref, b)
    ensures Usable(src, p, b)
  {
    if ref.namespace.None? && ref.name in src.byLocal {
      assert Complete(src, p, ref.name, b);
    }
  }

  function Publish(src: Sources, p: Progress, n: string, d: InterfaceDef): Progress {
    p.(interfaces := p.interfaces[n := d], byMangled := p.byMangled[d.name := d], done := p.done + {n})
  }

  lemma PublishKeepsInvariant(src: Sources, p: Progress, n: string, d: InterfaceDef)
    requires Invariant(src, p) && n in src.byLocal && n !in p.done && n !in p.visiting
    requires d.name == Mangle(src.moduleId, n) && d.decl == src.byLocal[n] && Finished(d)
    requires AllResolve(src, p, d.decl.bases, d.bases) && AllUsable(src, p, d.bases)
    ensures Invariant(src, Publish(src, p, n, d)) && Extends(src, p, Publish(src, p, n, d))
    ensures Complete(src, Publish(src, p, n, d), n, d)
  {
    hide Finished, Complete, Usable, AllResolve, AllRegistered, Registered;
    var q := Publish(src, p, n, d);
    assert Extends(src, p, q);
    ExtendsKeeps(src, p, q, d.decl.bases, d.bases);
    forall k | k in p.done && k in p.interfaces ensures Complete(src, q, k, q.interfaces[k]) {
      CompleteKept(src, p, q, k, p.interfaces[k]);
    }
    PublishedIsComplete(src, q, n, d);
    UsableKept(src, p, q);
    if src.unclaimed { PublishedRegistered(src, p, q, n, d); }
    forall k | src.unclaimed && k in src.byLocal && k !in q.done ensures Mangle(src.moduleId, k) !in q.byMangled {
      if Mangle(src.moduleId, k) == d.name { MangleInjective(src.moduleId, k, n); }
    }
  }

  lemma PublishedRegistered(src: Sources, p: Progress, q: Progress, n: string, d: InterfaceDef)
    requires src.unclaimed && AllRegistered(p.byMangled) && Extends(src, p, q)
    requires q.byMangled == p.byMangled[d.name := d] && Complete(src, q, n, d)
    ensures AllRegistered(q.byMangled)
  {
    forall k | k in q.byMangled ensures Registered(q.byMangled, q.byMangled[k]) {
      if k != d.name { RegisteredGrows(p.byMangled, q.byMangled, p.byMangled[k]); }
    }
  }

  lemma PublishedIsComplete(src: Sources, q: Progress, n: string, d: InterfaceDef)
    requires n in src.byLocal && d.name == Mangle(src.moduleId, n) && d.decl == src.byLocal[n] && Finished(d)
    requires AllResolve(src, q, d.decl.bases, d.bases) && AllUsable(src, q, d.bases)
    requires d.name in q.byMangled && q.byMangled[d.name] == d
    ensures Complete(src, q, n, d)
  {
    hide Finished, AllResolve;
    if src.unclaimed {
      forall b | b in d.bases ensures Registered(q.byMangled, b) { assert Usable(src, q, b); }
    }
  }

  lemma UsableKept(src: Sources, p: Progress, q: Progress)
    requires Invariant(src, p) && Extends(src, p, q)
    ensures forall n | n in src.imported :: Usable(src, q, src.imported[n])
    ensures forall s, n | s in src.namespaces && n in src.namespaces[s] :: Usable(src, q, src.namespaces[s][n])
  {
    forall n | n in src.imported ensures Usable(src, q, src.imported[n]) {
      UsableGrows(src, p, q, src.imported[n]);
    }
    forall s, n | s in src.namespaces && n in src.namespaces[s] ensures Usable(src, q, src.namespaces[s][n]) {
      UsableGrows(src, p, q, src.namespaces[s][n]);
    }
  }

  function Discard(p: Progress, n: string): Progress {
    p.(interfaces := p.interfaces - {n}, done := p.done + {n}, failed := true)
  }

  lemma DiscardKeepsInvariant(src: Sources, p: Progress, n: string)
    requires Invariant(src, p) && n in src.byLocal && n !in p.done && n !in p.visiting
    ensures Invariant(src, Discard(p, n)) && Extends(src, p, Discard(p, n))
  {
    var q := Discard(p, n);
    forall k | k in p.done && k in p.interfaces ensures Complete(src, q, k, q.interfaces[k]) {
      CompleteKept(src, p, q, k, p.interfaces[k]);
    }
    UsableKept(src, p, q);
  }

  /** Entering, leaving and failing change nothing the invariant is about. */
  lemma RevisitKeepsInvariant(src: Sources, p: Progress, visiting: set<string>, failed: bool)
    requires Invariant(src, p) && visiting <= src.byLocal.Keys && visiting !! p.done && (p.failed ==> failed)
    ensures Invariant(src, p.(visiting := visiting, failed := failed))
    ensures Extends(src, p, p.(visiting := visiting, failed := failed))
  {
    var q := p.(visiting := visiting, failed := failed);
    forall k | k in p.done && k in p.interfaces ensures Complete(src, q, k, q.interfaces[k]) {
      CompleteKept(src, p, q, k, p.interfaces[k]);
    }
    UsableKept(src, p, q);
  }

  lemma ExtendsReflexive(src: Sources, p: Progress)
    ensures Extends(src, p, p)
  {}

  lemma ResolveNone(src: Sources, p: Progress, refs: seq<TypeRef>)
    ensures AllResolve(src, p, refs[..0], []) && AllUsable(src, p, [])
  {}

  lemma ResolveOneMore(src: Sources, p: Progress, q: Progress, refs: seq<TypeRef>, bases: seq<InterfaceDef>,
                       b: InterfaceDef)
    requires Extends(src, p, q) && Invariant(src, q) && |bases| < |refs|
    requires AllResolve(src, p, refs[..|bases|], bases) && AllUsable(src, p, bases) && Resolves(src, q, refs[|bases|], b)
    ensures AllResolve(src, q, refs[..|bases| + 1], bases + [b]) && AllUsable(src, q, bases + [b])
  {
    hide Finished, Registered, Invariant, OwnNames, Pending;
    ExtendsKeeps(src, p, q, refs[..|bases|], bases);
    ResolvedIsUsable(src, q, refs[|bases|], b);
  }

  lemma ResolveVisiting(src: Sources, p: Progress, q: Progress, refs: seq<TypeRef>, bases: seq<InterfaceDef>)
    requires q == p.(visiting := q.visiting)
    requires AllResolve(src, p, refs, bases) && AllUsable(src, p, bases)
    ensures AllResolve(src, q, refs, bases) && AllUsable(src, q, bases)
  {
    ExtendsKeeps(src, p, q, refs, bases);
  }

  lemma LeaveKeepsInvariant(src: Sources, start: Progress, p: Progress, n: string, failed: bool)
    requires Invariant(src, p) && Extends(src, start, p) && (p.failed ==> failed)
    ensures var q := p.(visiting := p.visiting - {n}, failed := failed);
      Invariant(src, q) && Extends(src, start, q)
  {
    RevisitKeepsInvariant(src, p, p.visiting - {n}, failed);
  }

  lemma LaidOutIsFinished(src: Sources, d: InterfaceDef, p: Progress)
    requires var t := LayoutItable(d.name, d.bases, d.decl.methods);
      t.ok && d.methods == t.methods && d.offsets == t.offsets
    requires !d.decl.index.BadIndex?
    requires (d.index.Present? <==> d.decl.index.IndexOf?) && (d.index.Present? ==> d.index.ty == d.decl.index.ty)
    requires AllUsable(src, p, d.bases)
    ensures Finished(d)
  {
    assert forall b | b in d.bases :: Usable(src, p, b);
  }

  /** What earlier modules left: a table of finished definitions, from which this module
      imports, and whose names an unclaimed module does not use. */
  ghost predicate Sourced(src: Sources, known: map<string, InterfaceDef>) {
    AllFinished(known)
    && (forall n | n in src.imported :: Finished(src.imported[n]))
    && (forall s, n | s in src.namespaces && n in src.namespaces[s] :: Finished(src.namespaces[s][n]))
    && (src.unclaimed ==>
          AllRegistered(known)
          && (forall n | n in src.imported :: Registered(known, src.imported[n]))
          && (forall s, n | s in src.namespaces && n in src.namespaces[s] :: Registered(known, src.namespaces[s][n]))
          && (forall n | n in src.byLocal :: Mangle(src.moduleId, n) !in known))
  }

  /* ---------- What declarations define, without a walk ---------- */

  function IndexOfDecl(decl: InterfaceDecl): MaybeType {
    if decl.index.IndexOf? then Present(decl.index.ty) else Absent
  }

  /** The definition of a declaration whose `extends` lists, followed to the end, are no
      deeper than `k`: its own layout over the definitions of its bases. */
  function DefOf(src: Sources, n: string, k: nat): Option<InterfaceDef>
    requires n in src.byLocal
    decreases k, 0
  {
    if k == 0 then None
    else
      var decl := src.byLocal[n];
      var bases := BasesOf(src, decl.bases, k - 1);
      if bases.None? then None
      else
        var t := LayoutItable(Mangle(src.moduleId, n), bases.value, decl.methods);
        if !t.ok || decl.index.BadIndex? then None
        else Some(InterfaceDef(Mangle(src.moduleId, n), bases.value, t.methods, t.offsets, IndexOfDecl(decl), decl))
  }

  function RefDef(src: Sources, ref: TypeRef, k: nat): Option<InterfaceDef>
    decreases k, 1
  {
    if ref.namespace.Some? then
      if ref.namespace.value in src.namespaces && ref.name in src.namespaces[ref.namespace.value]
      then Some(src.namespaces[ref.namespace.value][ref.name]) else None
    else if ref.name in src.byLocal then DefOf(src, ref.name, k)
    else if ref.name in src.imported then Some(src.imported[ref.name]) else None
  }

  function BasesOf(src: Sources, refs: seq<TypeRef>, k: nat): (r: Option<seq<InterfaceDef>>)
    ensures r.Some? ==> |r.value| == |refs| && forall i | 0 <= i < |refs| :: RefDef(src, refs[i], k) == Some(r.value[i])
    ensures r.None? ==> exists i | 0 <= i < |refs| :: RefDef(src, refs[i], k).None?
    decreases k, 2, |refs|
  {
    if refs == [] then Some([])
    else
      var first, rest := RefDef(src, refs[0], k), BasesOf(src, refs[1..], k);
      if first.None? || rest.None? then
        assert rest.None? ==> forall i | 0 <= i < |refs[1..]| :: refs[1..][i] == refs[i + 1];
        None
      else Some([first.value] + rest.value)
  }

  /** The declaration has a definition: it is in no cycle, all names it extends are known,
      and it and its bases have no errors of their own. */
  ghost predicate Derivable(src: Sources, n: string) {
    n in src.byLocal && exists k :: DefOf(src, n, k).Some?
  }

  ghost predicate Denotes(src: Sources, ref: TypeRef, d: InterfaceDef) {
    exists k :: RefDef(src, ref, k) == Some(d)
  }

  lemma {:induction false} DeeperDef(src: Sources, n: string, k: nat, m: nat)
    requires n in src.byLocal && DefOf(src, n, k).Some? && k <= m
    ensures DefOf(src, n, m) == DefOf(src, n, k)
    decreases k
  {
    hide LayoutItable, Mangle;
    var refs := src.byLocal[n].bases;
    var bases := BasesOf(src, refs, k - 1).value;
    forall i | 0 <= i < |refs| ensures RefDef(src, refs[i], m - 1) == Some(bases[i]) {
      if refs[i].namespace.None? && refs[i].name in src.byLocal { DeeperDef(src, refs[i].name, k - 1, m - 1); }
    }
    var again := BasesOf(src, refs, m - 1);
    assert again.Some?;
    assert again.value == bases;
  }

  lemma DeeperRef(src: Sources, ref: TypeRef, k: nat, m: nat)
    requires RefDef(src, ref, k).Some? && RefDef(src, ref, m).Some?
    ensures RefDef(src, ref, m) == RefDef(src, ref, k)
  {
    if ref.namespace.None? && ref.name in src.byLocal {
      if k <= m { DeeperDef(src, ref.name, k, m); } else { DeeperDef(src, ref.name, m, k); }
    }
  }

  /** The definition is within reach without meeting any of the names being visited. */
  ghost predicate WithinReach(src: Sources, ref: TypeRef, visiting: set<string>, k: nat) {
    RefDef(src, ref, k).Some? && forall w | w in visiting && w in src.byLocal :: DefOf(src, w, k).None?
  }

  ghost predicate Reachable(src: Sources, ref: TypeRef, visiting: set<string>) {
    exists k :: WithinReach(src, ref, visiting, k)
  }

  function Here(n: string): TypeRef {
    TypeRef(None, n)
  }

  lemma LeastDepth(src: Sources, n: string, k: nat) returns (m: nat)
    requires n in src.byLocal && DefOf(src, n, k).Some?
    ensures 0 < m <= k && DefOf(src, n, m).Some? && DefOf(src, n, m - 1).None?
  {
    m := k;
    while DefOf(src, n, m - 1).Some?
      invariant 0 < m <= k && DefOf(src, n, m).Some?
      decreases m
    {
      m := m - 1;
    }
  }

  lemma BaseWithinReach(src: Sources, n: string, visiting: set<string>, i: nat)
    requires n in src.byLocal && Reachable(src, Here(n), visiting) && i < |src.byLocal[n].bases|
    ensures Reachable(src, src.byLocal[n].bases[i], visiting + {n})
  {
    hide LayoutItable, Mangle;
    var k: nat :| WithinReach(src, Here(n), visiting, k);
    var m := LeastDepth(src, n, k);
    var ref := src.byLocal[n].bases[i];
    assert BasesOf(src, src.byLocal[n].bases, m - 1).Some?;
    forall w | w in visiting + {n} && w in src.byLocal ensures DefOf(src, w, m - 1).None? {
      if DefOf(src, w, m - 1).Some? && w != n { DeeperDef(src, w, m - 1, k); }
    }
    assert WithinReach(src, ref, visiting + {n}, m - 1);
  }

  lemma VisitedIsNoReach(src: Sources, n: string, visiting: set<string>)
    requires n in src.byLocal && n in visiting
    ensures !Reachable(src, Here(n), visiting)
  {
  }

  lemma ReachableHere(src: Sources, ref: TypeRef, visiting: set<string>)
    requires Reachable(src, ref, visiting)
    ensures if ref.namespace.Some? then ref.namespace.value in src.namespaces && ref.name in src.namespaces[ref.namespace.value]
            else if ref.name in src.byLocal then Reachable(src, Here(ref.name), visiting) else ref.name in src.imported
  {
    var k: nat :| WithinReach(src, ref, visiting, k);
    if ref.namespace.None? { assert WithinReach(src, Here(ref.name), visiting, k) || ref.name !in src.byLocal; }
  }

  lemma DerivableIsReachable(src: Sources, n: string)
    requires Derivable(src, n)
    ensures Reachable(src, Here(n), {})
  {
    var k :| DefOf(src, n, k).Some?;
    assert WithinReach(src, Here(n), {}, k);
  }

  /** What has been collected is what the declarations define. */
  lemma {:induction false} CompleteDenotes(src: Sources, p: Progress, n: string, d: InterfaceDef)
    requires Invariant(src, p) && n in p.done && n in p.interfaces && p.interfaces[n] == d
    ensures Denotes(src, Here(n), d)
    decreases d, 0
  {
    hide LayoutItable, Mangle, Usable, Invariant;
    assert Complete(src, p, n, d) && Finished(d) by { InvariantAt(src, p, n); }
    var refs := d.decl.bases;
    var k := BasesDenoted(src, p, refs, d.bases, |refs|);
    var bases := BasesOf(src, refs, k);
    assert bases.Some?;
    assert bases.value == d.bases;
    assert DefOf(src, n, k + 1) == Some(d);
    assert RefDef(src, Here(n), k + 1) == Some(d);
  }

  lemma InvariantAt(src: Sources, p: Progress, n: string)
    requires Invariant(src, p) && n in p.done && n in p.interfaces
    ensures Complete(src, p, n, p.interfaces[n]) && Finished(p.interfaces[n])
  {
    hide Finished;
  }

  lemma {:induction false} BasesDenoted(src: Sources, p: Progress, refs: seq<TypeRef>, bases: seq<InterfaceDef>, j: nat)
    returns (k: nat)
    requires Invariant(src, p) && AllResolve(src, p, refs, bases) && j <= |refs|
    ensures forall i | 0 <= i < j :: RefDef(src, refs[i], k) == Some(bases[i])
    decreases bases, j
  {
    hide Invariant;
    k := 0;
    if j > 0 {
      var a := BasesDenoted(src, p, refs, bases, j - 1);
      assert Resolves(src, p, refs[j - 1], bases[j - 1]);
      ResolvedDenotes(src, p, refs[j - 1], bases[j - 1]);
      var b :| RefDef(src, refs[j - 1], b) == Some(bases[j - 1]);
      k := if a < b then b else a;
      forall i | 0 <= i < j ensures RefDef(src, refs[i], k) == Some(bases[i]) {
        if refs[i].namespace.None? && refs[i].name in src.byLocal { DeeperDef(src, refs[i].name, if i < j - 1 then a else b, k); }
      }
    }
  }

  lemma {:induction false} ResolvedDenotes(src: Sources, p: Progress, ref: TypeRef, d: InterfaceDef)
    requires Invariant(src, p) && Resolves(src, p, ref, d)
    ensures Denotes(src, ref, d)
    decreases d, 1
  {
    hide Invariant;
    if ref.namespace.None? && ref.name in src.byLocal {
      CompleteDenotes(src, p, ref.name, d);
      var k :| RefDef(src, Here(ref.name), k) == Some(d);
      assert RefDef(src, ref, k) == Some(d);
    } else {
      assert RefDef(src, ref, 0) == Some(d);
    }
  }

  /** Over the bases that the walk has found, a declaration with a definition lays out. */
  lemma LaidOutAsDefined(src: Sources, p: Progress, n: string, visiting: set<string>, bases: seq<InterfaceDef>)
    requires Invariant(src, p) && n in src.byLocal && Reachable(src, Here(n), visiting)
    requires AllResolve(src, p, src.byLocal[n].bases, bases)
    ensures LayoutItable(Mangle(src.moduleId, n), bases, src.byLocal[n].methods).ok && !src.byLocal[n].index.BadIndex?
  {
    hide Invariant, LayoutItable, Mangle;
    var k: nat :| WithinReach(src, Here(n), visiting, k);
    var refs := src.byLocal[n].bases;
    var j := BasesDenoted(src, p, refs, bases, |refs|);
    var found := BasesOf(src, refs, k - 1);
    assert DefOf(src, n, k).Some? && found.Some?;
    forall i | 0 <= i < |refs| ensures found.value[i] == bases[i] { DeeperRef(src, refs[i], j, k - 1); }
    assert found.value == bases;
  }

  class InterfaceCollector {
    const src: Sources
    var interfaces: map<string, InterfaceDef>
    var byMangled: map<string, InterfaceDef>
    var visiting: set<string>
    var done: set<string>
    var failed: bool

    ghost function State(): Progress
      reads this
    {
      Progress(interfaces, byMangled, visiting, done, failed)
    }

    constructor (src: Sources, known: map<string, InterfaceDef>)
      requires Sourced(src, known)
      ensures this.src == src && Invariant(src, State()) && done == visiting == {} && !failed && byMangled == known
    {
      hide Finished, Registered, Mangle;
      this.src := src;
      interfaces := map n | n in src.byLocal ::
        InterfaceDef(Mangle(src.moduleId, n), [], [], map[Mangle(src.moduleId, n) := 0], Absent, src.byLocal[n]);
      byMangled, visiting, done, failed := known, {}, {}, false;
    }

    method FinishInterface(localName: string) returns (r: Option<InterfaceDef>)
      requires Invariant(src, State()) && localName in src.byLocal
      modifies this
      ensures Invariant(src, State()) && Extends(src, old(State()), State()) && visiting == old(visiting)
      ensures r.None? ==> failed
      ensures r.Some? ==> Resolves(src, State(), TypeRef(None, localName), r.value)
      ensures Reachable(src, Here(localName), old(visiting)) && !old(failed) ==> !failed
      decreases src.byLocal.Keys - visiting, 0
    {
      hide Invariant, Usable, AllUsable, Finished, Extends, AllResolve, Complete, LayoutItable, Mangle, Reachable;
      InvariantBasics(src, State());
      ExtendsReflexive(src, State());
      if localName in done {
        return if localName in interfaces then Some(interfaces[localName]) else None;
      }
      if localName in visiting {
        VisitedIsNoReach(src, localName, visiting);
        RevisitKeepsInvariant(src, State(), visiting, true);
        failed := true;
        return None;
      }
      RevisitKeepsInvariant(src, State(), visiting + {localName}, failed);
      visiting := visiting + {localName};
      var decl := src.byLocal[localName];
      var bases: seq<InterfaceDef> := [];
      var i := 0;
      ResolveNone(src, State(), decl.bases);
      while i < |decl.bases|
        invariant Invariant(src, State()) && Extends(src, old(State()), State())
        invariant visiting == old(visiting) + {localName} && localName !in old(visiting)
        invariant 0 <= i == |bases| <= |decl.bases|
        invariant AllResolve(src, State(), decl.bases[..i], bases) && AllUsable(src, State(), bases)
        invariant Reachable(src, Here(localName), old(visiting)) && !old(failed) ==> !failed
      {
        ghost var before := State();
        if Reachable(src, Here(localName), old(visiting)) { BaseWithinReach(src, localName, old(visiting), i); }
        var base := Lookup(decl.bases[i]);
        ExtendsTransitive(src, old(State()), before, State());
        if base.None? {
          LeaveKeepsInvariant(src, old(State()), State(), localName, true);
          failed := true;
          visiting := visiting - {localName};
          return None;
        }
        ResolveOneMore(src, before, State(), decl.bases, bases, base.value);
        bases := bases + [base.value];
        i := i + 1;
      }
      assert decl.bases[..i] == decl.bases;
      var t := LayOut(Mangle(src.moduleId, localName), bases, decl.methods);
      InvariantBasics(src, State());
      LeaveKeepsInvariant(src, old(State()), State(), localName, failed);
      ghost var inside := State();
      visiting := visiting - {localName};
      ghost var ready := State();
      ResolveVisiting(src, inside, ready, decl.bases, bases);
      if Reachable(src, Here(localName), old(visiting)) { LaidOutAsDefined(src, ready, localName, old(visiting), bases); }
      if !t.ok || decl.index.BadIndex? {
        DiscardKeepsInvariant(src, ready, localName);
        ExtendsTransitive(src, old(State()), ready, Discard(ready, localName));
        done, failed, interfaces := done + {localName}, true, interfaces - {localName};
        return None;
      }
      var index := if decl.index.IndexOf? then Present(decl.index.ty) else Absent;
      var def := InterfaceDef(Mangle(src.moduleId, localName), bases, t.methods, t.offsets, index, decl);
      LaidOutIsFinished(src, def, ready);
      PublishKeepsInvariant(src, ready, localName, def);
      ExtendsTransitive(src, old(State()), ready, Publish(src, ready, localName, def));
      done, interfaces, byMangled := done + {localName}, interfaces[localName := def], byMangled[def.name := def];
      r := Some(def);
    }

    /** One entry of an `extends` list. */
    method Lookup(ref: TypeRef) returns (base: Option<InterfaceDef>)
      requires Invariant(src, State())
      modifies this
      ensures Invariant(src, State()) && Extends(src, old(State()), State()) && visiting == old(visiting)
      ensures base.Some? ==> Resolves(src, State(), ref, base.value)
      ensures Reachable(src, ref, old(visiting)) && !old(failed) ==> !failed && base.Some?
      decreases src.byLocal.Keys - visiting, 1
    {
      if Reachable(src, ref, visiting) { ReachableHere(src, ref, visiting); }
      base := None;
      if ref.namespace.Some? {
        if ref.namespace.value in src.namespaces && ref.name in src.namespaces[ref.namespace.value] {
          base := Some(src.namespaces[ref.namespace.value][ref.name]);
        }
      } else if ref.name in src.byLocal {
        base := FinishInterface(ref.name);
      } else if ref.name in src.imported {
        base := Some(src.imported[ref.name]);
      }
    }
  }

  /** All interfaces of a module: without a diagnostic every declaration ends up
      with a finished definition that its bases resolve to. */
  method CollectInterfaces(src: Sources, known: map<string, InterfaceDef>, declarations: seq<string>)
    returns (interfaces: map<string, InterfaceDef>, byMangled: map<string, InterfaceDef>, failed: bool)
    requires Sourced(src, known)
    requires forall n | n in declarations :: n in src.byLocal
    ensures !failed ==> forall n | n in declarations ::
        n in interfaces && interfaces[n].name == Mangle(src.moduleId, n) && interfaces[n].decl == src.byLocal[n]
        && Finished(interfaces[n]) && (src.unclaimed ==> Registered(byMangled, interfaces[n]))
        && |interfaces[n].bases| == |src.byLocal[n].bases|
        && Mangle(src.moduleId, n) in byMangled && byMangled[Mangle(src.moduleId, n)] == interfaces[n]
    ensures !failed <==> forall n | n in declarations :: Derivable(src, n)
    ensures !failed ==> forall n | n in declarations :: n in interfaces && Denotes(src, Here(n), interfaces[n])
    ensures forall n | n in known && n !in OwnNames(src.moduleId, src.byLocal.Keys) ::
        n in byMangled && byMangled[n] == known[n]
    ensures interfaces.Keys <= src.byLocal.Keys
    ensures AllFinished(byMangled) && byMangled.Keys <= known.Keys + OwnNames(src.moduleId, src.byLocal.Keys)
    ensures src.unclaimed ==> AllRegistered(byMangled) && forall n | n in known :: n in byMangled && byMangled[n] == known[n]
  {
    hide Invariant, Finished, AllFinished, AllRegistered, Sourced, OwnNames, Derivable, Denotes, Reachable;
    var c := new InterfaceCollector(src, known);
    ghost var start := c.State();
    ExtendsReflexive(src, start);
    var i := 0;
    while i < |declarations|
      invariant 0 <= i <= |declarations|
      invariant c.src == src && Invariant(src, c.State()) && c.visiting == {} && Extends(src, start, c.State())
      invariant !c.failed ==> forall n | n in declarations[..i] :: n in c.done
      invariant (forall n | n in declarations :: Derivable(src, n)) ==> !c.failed
    {
      ghost var before := c.State();
      if Derivable(src, declarations[i]) { DerivableIsReachable(src, declarations[i]); }
      var _ := c.FinishInterface(declarations[i]);
      ExtendsTransitive(src, start, before, c.State());
      assert declarations[..i + 1] == declarations[..i] + [declarations[i]];
      i := i + 1;
    }
    assert declarations[..i] == declarations;
    if !c.failed {
      AllDone(src, c.State(), declarations);
      AllDenoted(src, c.State(), declarations);
    }
    InvariantTable(src, c.State());
    PendingAreOwn(src, start);
    return c.interfaces, c.byMangled, c.failed;
  }

  lemma AllDone(src: Sources, p: Progress, declarations: seq<string>)
    requires Invariant(src, p) && !p.failed && forall n | n in declarations :: n in p.done
    ensures forall n | n in declarations :: n in p.interfaces && Complete(src, p, n, p.interfaces[n])
  {}

  lemma AllDenoted(src: Sources, p: Progress, declarations: seq<string>)
    requires Invariant(src, p) && forall n | n in declarations :: n in src.byLocal && n in p.done && n in p.interfaces
    ensures forall n | n in declarations :: Derivable(src, n) && Denotes(src, Here(n), p.interfaces[n])
  {
    hide Invariant;
    forall n | n in declarations ensures Derivable(src, n) && Denotes(src, Here(n), p.interfaces[n]) {
      CompleteDenotes(src, p, n, p.interfaces[n]);
      var k :| RefDef(src, Here(n), k) == Some(p.interfaces[n]);
      assert DefOf(src, n, k).Some?;
    }
  }

  lemma PendingAreOwn(src: Sources, p: Progress)
    ensures Pending(src, p) <= OwnNames(src.moduleId, src.byLocal.Keys)
  {
    hide Mangle;
  }

  lemma InvariantTable(src: Sources, p: Progress)
    requires Invariant(src, p)
    ensures AllFinished(p.byMangled) && (src.unclaimed ==> AllRegistered(p.byMangled))
    ensures p.interfaces.Keys <= src.byLocal.Keys
  {}
}
