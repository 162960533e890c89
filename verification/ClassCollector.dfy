/** Collecting the classes of one module: the depth-first walk over superclasses and
    the loops that lay out fields and vtables. */
module ClassCollection {
  import opened Common
  import opened Types
  import opened Interfaces
  import opened Classes
  import opened InterfaceCollection

  method ReadMembers(name: string, decl: ClassDecl, base: Option<ClassDef>) returns (s: Scan)
    ensures s == ScanOf(name, decl, base)
  {
    s := StartScan(base);
    var i := 0;
    while i < |decl.members|
      invariant 0 <= i <= |decl.members|
      invariant ScanMembers(s, decl.members[i..], name, decl.isAbstract) == ScanOf(name, decl, base)
    {
      hide ScanMember, StartScan;
      var m := decl.members[i];
      assert decl.members[i..][0] == m && decl.members[i..][1..] == decl.members[i + 1..];
      s := ScanMember(s, m, name, decl.isAbstract);
      i := i + 1;
    }
  }

  method ReindexFields(inherited: seq<ClassField>) returns (fields: seq<ClassField>)
    ensures fields == Reindex(inherited)
  {
    fields := inherited;
    var i := 0;
    while i < |fields|
      invariant 0 <= i <= |fields| == |inherited|
      invariant forall k | 0 <= k < i :: fields[k] == inherited[k].(fieldIndex := k + 1)
      invariant forall k | i <= k < |fields| :: fields[k] == inherited[k]
    {
      fields := fields[i := fields[i].(fieldIndex := i + 1)];
      i := i + 1;
    }
  }

  /** The slot recorded for each name is the one a search would find. */
  ghost predicate SlotsIndexed(slotByName: map<string, nat>, ms: seq<ClassMethod>) {
    forall n :: (if n in slotByName then FindSlot(ms, n) == Some(slotByName[n]) else FindSlot(ms, n).None?)
  }

  lemma {:induction false} FindSlotUpdate(ms: seq<ClassMethod>, k: nat, m: ClassMethod, n: string)
    requires k < |ms| && ms[k].name == m.name
    ensures FindSlot(ms[k := m], n) == FindSlot(ms, n)
    decreases |ms|
  {
    if k < |ms| - 1 {
      assert ms[k := m][..|ms| - 1] == ms[..|ms| - 1][k := m];
      FindSlotUpdate(ms[..|ms| - 1], k, m, n);
    } else {
      assert ms[k := m][..|ms| - 1] == ms[..|ms| - 1];
    }
  }

  lemma FindSlotAppend(ms: seq<ClassMethod>, m: ClassMethod, n: string)
    ensures FindSlot(ms + [m], n) == if n == m.name then Some(|ms|) else FindSlot(ms, n)
  {
    assert (ms + [m])[..|ms|] == ms;
  }

  method IndexSlots(ms: seq<ClassMethod>) returns (slotByName: map<string, nat>)
    ensures SlotsIndexed(slotByName, ms)
  {
    slotByName := map[];
    var i := 0;
    while i < |ms|
      invariant 0 <= i <= |ms|
      invariant SlotsIndexed(slotByName, ms[..i])
    {
      assert ms[..i + 1] == ms[..i] + [ms[i]];
      forall n {
        FindSlotAppend(ms[..i], ms[i], n);
      }
      slotByName := slotByName[ms[i].name := i];
      i := i + 1;
    }
    assert ms[..i] == ms;
  }

  /** The override loop over the class's own methods. */
  method PlaceOwn(base: seq<ClassMethod>, own: seq<Member>, cls: string) returns (methods: seq<ClassMethod>, ok: bool)
    requires forall m | m in own :: m.MethodM?
    ensures Vtable(methods, ok) == PlaceMethods(Vtable(base, true), own, cls)
  {
    methods, ok := base, true;
    var slotByName: map<string, nat> := IndexSlots(base);
    var i := 0;
    while i < |own|
      invariant 0 <= i <= |own|
      invariant SlotsIndexed(slotByName, methods)
      invariant PlaceMethods(Vtable(methods, ok), own[i..], cls) == PlaceMethods(Vtable(base, true), own, cls)
    {
      var m := own[i];
      assert own[i..][0] == m && own[i..][1..] == own[i + 1..];
      assert m in own;
      ghost var before := Vtable(methods, ok);
      if m.sig.None? {
        ok := false;
      } else if !m.isStatic {
        assert if m.name in slotByName then FindSlot(methods, m.name) == Some(slotByName[m.name])
               else FindSlot(methods, m.name).None?;
        if m.name in slotByName {
          var slot := slotByName[m.name];
          if !SameShape(methods[slot].sig, m.sig.value) {
            ok := false;
          } else {
            forall n { FindSlotUpdate(methods, slot, Implementation(m, cls, slot), n); }
            methods := methods[slot := Implementation(m, cls, slot)];
          }
        } else {
          var slot := |methods|;
          forall n { FindSlotAppend(methods, Implementation(m, cls, slot), n); }
          slotByName := slotByName[m.name := slot];
          methods := methods + [Implementation(m, cls, slot)];
        }
      }
      assert Vtable(methods, ok) == PlaceMethod(before, m, cls);
      i := i + 1;
    }
  }

  /** The abstract-method, interface and constructor checks. */
  method CheckClass(decl: ClassDecl, methods: seq<ClassMethod>, ifaces: seq<InterfaceDef>,
                    ctor: Option<seq<Option<Type>>>, base: Option<ClassDef>) returns (ok: bool)
    ensures ok <==>
      (!decl.isAbstract ==> forall i | 0 <= i < |methods| :: !methods[i].isAbstract)
      && Complies(methods, ifaces) && ConstructorOk(ctor, base)
  {
    ok := true;
    var i := 0;
    if !decl.isAbstract {
      while i < |methods|
        invariant 0 <= i <= |methods|
        invariant ok <==> forall k | 0 <= k < i :: !methods[k].isAbstract
      {
        ok := ok && !methods[i].isAbstract;
        i := i + 1;
      }
    }
    ghost var concrete := ok;
    i := 0;
    while i < |ifaces|
      invariant 0 <= i <= |ifaces|
      invariant ok <==> concrete && Complies(methods, ifaces[..i])
    {
      ghost var soFar := ok;
      var j := 0;
      while j < |ifaces[i].methods|
        invariant 0 <= j <= |ifaces[i].methods|
        invariant ok <==> soFar && forall k | 0 <= k < j :: Implements(methods, ifaces[i].methods[k])
      {
        ok := ok && Implements(methods, ifaces[i].methods[j]);
        j := j + 1;
      }
      CompliesOneMore(methods, ifaces, i);
      i := i + 1;
    }
    assert ifaces[..i] == ifaces;
    ok := ok && ConstructorOk(ctor, base);
  }

  lemma CompliesOneMore(ms: seq<ClassMethod>, ifaces: seq<InterfaceDef>, i: nat)
    requires i < |ifaces|
    ensures Complies(ms, ifaces[..i + 1]) <==>
      Complies(ms, ifaces[..i]) && forall k | 0 <= k < |ifaces[i].methods| :: Implements(ms, ifaces[i].methods[k])
  {
    var all, front := ifaces[..i + 1], ifaces[..i];
    assert all[i] == ifaces[i];
    assert forall k | 0 <= k < i :: all[k] == front[k];
    if Complies(ms, all) {
      assert forall k, j | 0 <= k < i && 0 <= j < |front[k].methods| :: Implements(ms, all[k].methods[j]);
    }
  }

  /* ---------- The walk ---------- */

  datatype ClassSources = ClassSources(
    moduleId: string,
    unclaimed: bool,
    byLocal: map<string, ClassDecl>,
    imported: map<string, ClassDef>,
    namespaces: map<string, map<string, ClassDef>>,
    interfaces: map<string, InterfaceDef>,
    interfaceNamespaces: map<string, map<string, InterfaceDef>>)

  datatype ClassProgress = ClassProgress(
    classes: map<string, ClassDef>,
    byMangled: map<string, ClassDef>,
    visiting: set<string>,
    done: set<string>,
    failed: bool)

  /** One definition per mangled name, for `d` and its superclasses. */
  ghost predicate RegisteredClass(env: map<string, ClassDef>, d: ClassDef) {
    d.name in env && env[d.name] == d && (d.superclass.Some? ==> RegisteredClass(env, d.superclass.value))
  }

  lemma {:induction false} RegisteredClassGrows(env: map<string, ClassDef>, larger: map<string, ClassDef>, d: ClassDef)
    requires RegisteredClass(env, d) && forall n | n in env :: n in larger && larger[n] == env[n]
    ensures RegisteredClass(larger, d)
  {
    if d.superclass.Some? { RegisteredClassGrows(env, larger, d.superclass.value); }
  }

  /** Finished, and found under its name in both tables unless names collide. */
  ghost predicate UsableClass(src: ClassSources, known: map<string, InterfaceDef>, p: ClassProgress, d: ClassDef) {
    FinishedClass(d) && (src.unclaimed ==> RegisteredClass(p.byMangled, d) && InterfacesRegistered(known, d))
  }

  ghost predicate AllFinishedClasses(table: map<string, ClassDef>) {
    forall n | n in table :: table[n].name == n && FinishedClass(table[n])
  }

  ghost predicate AllRegisteredClasses(known: map<string, InterfaceDef>, table: map<string, ClassDef>) {
    forall n | n in table :: RegisteredClass(table, table[n]) && InterfacesRegistered(known, table[n])
  }

  ghost predicate ResolvesClass(src: ClassSources, p: ClassProgress, ref: TypeRef, d: ClassDef) {
    if ref.namespace.Some? then
      ref.namespace.value in src.namespaces && ref.name in src.namespaces[ref.namespace.value]
      && d == src.namespaces[ref.namespace.value][ref.name]
    else if ref.name in src.byLocal then
      ref.name in p.done && ref.name in p.classes && d == p.classes[ref.name]
    else
      ref.name in src.imported && d == src.imported[ref.name]
  }

  function LookupInterface(src: ClassSources, ref: TypeRef): Option<InterfaceDef> {
    if ref.namespace.Some? then
      if ref.namespace.value in src.interfaceNamespaces && ref.name in src.interfaceNamespaces[ref.namespace.value]
      then Some(src.interfaceNamespaces[ref.namespace.value][ref.name]) else None
    else if ref.name in src.interfaces then Some(src.interfaces[ref.name]) else None
  }

  /** The `implements` list is in order: every name is known, and none is listed twice. */
  predicate Listable(src: ClassSources, refs: seq<TypeRef>) {
    (forall i | 0 <= i < |refs| :: LookupInterface(src, refs[i]).Some?)
    && forall i, j | 0 <= i < j < |refs| ::
         LookupInterface(src, refs[i]).value.name != LookupInterface(src, refs[j]).value.name
  }

  function ListedInterfaces(src: ClassSources, refs: seq<TypeRef>): (r: seq<InterfaceDef>)
    requires Listable(src, refs)
    ensures |r| == |refs| && forall i | 0 <= i < |refs| :: r[i] == LookupInterface(src, refs[i]).value
  {
    seq(|refs|, i requires 0 <= i < |refs| => LookupInterface(src, refs[i]).value)
  }

  ghost predicate UsableInterface(src: ClassSources, known: map<string, InterfaceDef>, d: InterfaceDef) {
    Finished(d) && (src.unclaimed ==> Registered(known, d))
  }

  /** Every listed interface, once; and exactly the list where it is in order. */
  ghost predicate ImplementsListed(src: ClassSources, refs: seq<TypeRef>, ifaces: seq<InterfaceDef>) {
    (forall r | r in refs :: LookupInterface(src, r).Some?)
    && (forall r | r in refs && LookupInterface(src, r).Some? ::
          exists i | 0 <= i < |ifaces| :: ifaces[i].name == LookupInterface(src, r).value.name)
    && (forall i | i in ifaces :: exists r | r in refs :: LookupInterface(src, r) == Some(i))
    && (Listable(src, refs) ==> ifaces == ListedInterfaces(src, refs))
  }

  ghost predicate CompleteClass(src: ClassSources, known: map<string, InterfaceDef>, p: ClassProgress, n: string,
                                d: ClassDef) {
    n in src.byLocal && d.name == Mangle(src.moduleId, n) && d.decl == src.byLocal[n] && UsableClass(src, known, p, d)
    && d.name in p.byMangled && p.byMangled[d.name] == d
    && (d.decl.superclass.Some? <==> d.superclass.Some?)
    && (d.superclass.Some? ==> ResolvesClass(src, p, d.decl.superclass.value, d.superclass.value))
    && ImplementsListed(src, d.decl.implementsTypes, d.implemented)
    && (p.failed || Listable(src, d.decl.implementsTypes))
  }

  /** The names of the module that are still to be entered into the table. */
  function PendingClasses(src: ClassSources, p: ClassProgress): set<string> {
    OwnNames(src.moduleId, src.byLocal.Keys - p.done)
  }

  lemma ClassNotPending(src: ClassSources, p: ClassProgress, n: string)
    requires n in p.done
    ensures Mangle(src.moduleId, n) !in PendingClasses(src, p)
  {
    hide Mangle;
    if k :| k in src.byLocal.Keys - p.done && Mangle(src.moduleId, k) == Mangle(src.moduleId, n) {
      MangleInjective(src.moduleId, k, n);
    }
  }

  lemma PendingClassesAreOwn(src: ClassSources, p: ClassProgress)
    ensures PendingClasses(src, p) <= OwnNames(src.moduleId, src.byLocal.Keys)
  {
    hide Mangle;
  }

  ghost predicate ClassInvariant(src: ClassSources, known: map<string, InterfaceDef>, p: ClassProgress) {
    p.visiting <= src.byLocal.Keys && p.done <= src.byLocal.Keys && p.visiting !! p.done
    && (forall n | n in p.done :: if n in p.classes then CompleteClass(src, known, p, n, p.classes[n]) else p.failed)
    && (src.unclaimed ==> forall n | n in src.byLocal && n !in p.done :: Mangle(src.moduleId, n) !in p.byMangled)
    && AllFinishedClasses(p.byMangled) && (src.unclaimed ==> AllRegisteredClasses(known, p.byMangled))
    && (forall n | n in src.imported :: UsableClass(src, known, p, src.imported[n]))
    && (forall s, n | s in src.namespaces && n in src.namespaces[s] :: UsableClass(src, known, p, src.namespaces[s][n]))
  }

  ghost predicate ClassExtends(src: ClassSources, p: ClassProgress, q: ClassProgress) {
    p.done <= q.done && (p.failed ==> q.failed)
    && (forall n | n in p.done :: (n in p.classes <==> n in q.classes)
          && (n in p.classes ==> q.classes[n] == p.classes[n]))
    && q.byMangled.Keys <= p.byMangled.Keys + OwnNames(src.moduleId, src.byLocal.Keys)
    && (forall n | n in p.byMangled && n !in PendingClasses(src, p) :: n in q.byMangled && q.byMangled[n] == p.byMangled[n])
    && (src.unclaimed ==> forall n | n in p.byMangled :: n in q.byMangled && q.byMangled[n] == p.byMangled[n])
  }

  lemma ClassInvariantBasics(src: ClassSources, known: map<string, InterfaceDef>, p: ClassProgress)
    requires ClassInvariant(src, known, p)
    ensures p.visiting <= src.byLocal.Keys && p.done <= src.byLocal.Keys && p.visiting !! p.done
    ensures forall n | n in p.done && n !in p.classes :: p.failed
  {
  }

  lemma ClassExtendsTransitive(src: ClassSources, p: ClassProgress, q: ClassProgress, r: ClassProgress)
    requires ClassExtends(src, p, q) && ClassExtends(src, q, r)
    ensures ClassExtends(src, p, r)
  {
  }

  lemma UsableClassGrows(src: ClassSources, known: map<string, InterfaceDef>, p: ClassProgress, q: ClassProgress,
                         d: ClassDef)
    requires ClassExtends(src, p, q) && UsableClass(src, known, p, d)
    ensures UsableClass(src, known, q, d)
  {
    if src.unclaimed { RegisteredClassGrows(p.byMangled, q.byMangled, d); }
  }

  lemma CompleteClassKept(src: ClassSources, known: map<string, InterfaceDef>, p: ClassProgress, q: ClassProgress,
                          n: string, d: ClassDef)
    requires ClassExtends(src, p, q) && CompleteClass(src, known, p, n, d) && n in p.done
    ensures CompleteClass(src, known, q, n, d)
  {
    ClassNotPending(src, p, n);
    UsableClassGrows(src, known, p, q, d);
  }

  lemma UsableClassesKept(src: ClassSources, known: map<string, InterfaceDef>, p: ClassProgress, q: ClassProgress)
    requires ClassInvariant(src, known, p) && ClassExtends(src, p, q)
    ensures forall n | n in p.done && n in p.classes :: CompleteClass(src, known, q, n, p.classes[n])
    ensures forall n | n in src.imported :: UsableClass(src, known, q, src.imported[n])
    ensures forall s, n | s in src.namespaces && n in src.namespaces[s] :: UsableClass(src, known, q, src.namespaces[s][n])
  {
    forall n | n in p.done && n in p.classes ensures CompleteClass(src, known, q, n, p.classes[n]) {
      CompleteClassKept(src, known, p, q, n, p.classes[n]);
    }
    forall n | n in src.imported ensures UsableClass(src, known, q, src.imported[n]) {
      UsableClassGrows(src, known, p, q, src.imported[n]);
    }
    forall s, n | s in src.namespaces && n in src.namespaces[s] ensures UsableClass(src, known, q, src.namespaces[s][n]) {
      UsableClassGrows(src, known, p, q, src.namespaces[s][n]);
    }
  }

  lemma ResolvedClassIsUsable(src: ClassSources, known: map<string, InterfaceDef>, p: ClassProgress, ref: TypeRef,
                              d: ClassDef)
    requires ClassInvariant(src, known, p) && ResolvesClass(src, p, ref, d)
    ensures UsableClass(src, known, p, d)
  {
    if ref.namespace.None? && ref.name in src.byLocal {
      assert CompleteClass(src, known, p, ref.name, d);
    }
  }

  function PublishClass(p: ClassProgress, n: string, d: ClassDef): ClassProgress {
    p.(classes := p.classes[n := d], byMangled := p.byMangled[d.name := d], done := p.done + {n})
  }

  lemma PublishClassKeepsInvariant(src: ClassSources, known: map<string, InterfaceDef>, p: ClassProgress, n: string,
                                   d: ClassDef)
    requires ClassInvariant(src, known, p) && n in src.byLocal && n !in p.done && n !in p.visiting
    requires d.name == Mangle(src.moduleId, n) && d.decl == src.byLocal[n] && FinishedClass(d)
    requires src.unclaimed ==> InterfacesRegistered(known, d)
    requires d.decl.superclass.Some? <==> d.superclass.Some?
    requires d.superclass.Some? ==>
        ResolvesClass(src, p, d.decl.superclass.value, d.superclass.value) && UsableClass(src, known, p, d.superclass.value)
    requires ImplementsListed(src, d.decl.implementsTypes, d.implemented)
    requires p.failed || Listable(src, d.decl.implementsTypes)
    ensures ClassInvariant(src, known, PublishClass(p, n, d)) && ClassExtends(src, p, PublishClass(p, n, d))
  {
    hide FinishedClass, InterfacesRegistered, ImplementsListed, CompleteClass, UsableClass, ResolvesClass,
         AllRegisteredClasses, RegisteredClass;
    var q := PublishClass(p, n, d);
    assert ClassExtends(src, p, q);
    UsableClassesKept(src, known, p, q);
    PublishedClassComplete(src, known, p, n, d);
    if src.unclaimed { PublishedClassRegistered(src, known, p, q, n, d); }
    forall k | src.unclaimed && k in src.byLocal && k !in q.done ensures Mangle(src.moduleId, k) !in q.byMangled {
      if Mangle(src.moduleId, k) == d.name { MangleInjective(src.moduleId, k, n); }
    }
  }

  lemma PublishedClassRegistered(src: ClassSources, known: map<string, InterfaceDef>, p: ClassProgress,
                                 q: ClassProgress, n: string, d: ClassDef)
    requires src.unclaimed && AllRegisteredClasses(known, p.byMangled) && ClassExtends(src, p, q)
    requires q.byMangled == p.byMangled[d.name := d] && CompleteClass(src, known, q, n, d)
    ensures AllRegisteredClasses(known, q.byMangled)
  {
    forall k | k in q.byMangled
      ensures RegisteredClass(q.byMangled, q.byMangled[k]) && InterfacesRegistered(known, q.byMangled[k])
    {
      if k != d.name { RegisteredClassGrows(p.byMangled, q.byMangled, p.byMangled[k]); }
    }
  }

  lemma PublishedClassComplete(src: ClassSources, known: map<string, InterfaceDef>, p: ClassProgress, n: string,
                               d: ClassDef)
    requires n in src.byLocal && n !in p.done && (src.unclaimed ==> Mangle(src.moduleId, n) !in p.byMangled)
    requires d.name == Mangle(src.moduleId, n) && d.decl == src.byLocal[n] && FinishedClass(d)
    requires src.unclaimed ==> InterfacesRegistered(known, d)
    requires d.decl.superclass.Some? <==> d.superclass.Some?
    requires d.superclass.Some? ==>
        ResolvesClass(src, p, d.decl.superclass.value, d.superclass.value) && UsableClass(src, known, p, d.superclass.value)
    requires ImplementsListed(src, d.decl.implementsTypes, d.implemented)
    requires p.failed || Listable(src, d.decl.implementsTypes)
    ensures CompleteClass(src, known, PublishClass(p, n, d), n, d)
  {
    hide FinishedClass, InterfacesRegistered, ImplementsListed, Mangle;
    var q := PublishClass(p, n, d);
    if d.superclass.Some? && src.unclaimed { RegisteredClassGrows(p.byMangled, q.byMangled, d.superclass.value); }
  }

  function DiscardClass(p: ClassProgress, n: string): ClassProgress {
    p.(classes := p.classes - {n}, done := p.done + {n}, failed := true)
  }

  lemma DiscardClassKeepsInvariant(src: ClassSources, known: map<string, InterfaceDef>, p: ClassProgress, n: string)
    requires ClassInvariant(src, known, p) && n in src.byLocal && n !in p.done && n !in p.visiting
    ensures ClassInvariant(src, known, DiscardClass(p, n)) && ClassExtends(src, p, DiscardClass(p, n))
  {
    UsableClassesKept(src, known, p, DiscardClass(p, n));
  }

  lemma RevisitClass(src: ClassSources, known: map<string, InterfaceDef>, start: ClassProgress, p: ClassProgress,
                     visiting: set<string>, failed: bool)
    requires ClassInvariant(src, known, p) && ClassExtends(src, start, p)
    requires visiting <= src.byLocal.Keys && visiting !! p.done && (p.failed ==> failed)
    ensures ClassInvariant(src, known, p.(visiting := visiting, failed := failed))
    ensures ClassExtends(src, start, p.(visiting := visiting, failed := failed))
  {
    UsableClassesKept(src, known, p, p.(visiting := visiting, failed := failed));
  }

  lemma StubsChangeNothing(src: ClassSources, known: map<string, InterfaceDef>, knownClasses: map<string, ClassDef>,
                           stubs: map<string, ClassDef>)
    requires ClassInvariant(src, known, ClassProgress(map[], knownClasses, {}, {}, false))
    ensures ClassInvariant(src, known, ClassProgress(stubs, knownClasses, {}, {}, false))
  {
    hide FinishedClass, InterfacesRegistered;
    var p, q := ClassProgress(map[], knownClasses, {}, {}, false), ClassProgress(stubs, knownClasses, {}, {}, false);
    assert forall d :: UsableClass(src, known, q, d) <==> UsableClass(src, known, p, d);
  }

  /** What the interface collector and the earlier modules left: usable interfaces and a
      table of finished classes, whose names an unclaimed module does not use. */
  ghost predicate SourcedClasses(src: ClassSources, known: map<string, InterfaceDef>, knownClasses: map<string, ClassDef>) {
    var start := ClassProgress(map[], knownClasses, {}, {}, false);
    (forall r: TypeRef :: LookupInterface(src, r).Some? ==>
        UsableInterface(src, known, LookupInterface(src, r).value))
    && AllFinishedClasses(knownClasses) && (src.unclaimed ==> AllRegisteredClasses(known, knownClasses))
    && (forall n | n in src.imported :: UsableClass(src, known, start, src.imported[n]))
    && (forall s, n | s in src.namespaces && n in src.namespaces[s] ::
          UsableClass(src, known, start, src.namespaces[s][n]))
    && (src.unclaimed ==> forall n | n in src.byLocal :: Mangle(src.moduleId, n) !in knownClasses)
  }

  lemma SourcedStart(src: ClassSources, known: map<string, InterfaceDef>, knownClasses: map<string, ClassDef>)
    requires SourcedClasses(src, known, knownClasses)
    ensures ClassInvariant(src, known, ClassProgress(map[], knownClasses, {}, {}, false))
    ensures forall r: TypeRef :: LookupInterface(src, r).Some? ==>
              UsableInterface(src, known, LookupInterface(src, r).value)
  {
  }

  lemma InvariantClasses(src: ClassSources, known: map<string, InterfaceDef>, p: ClassProgress)
    requires ClassInvariant(src, known, p)
    ensures AllFinishedClasses(p.byMangled) && (src.unclaimed ==> AllRegisteredClasses(known, p.byMangled))
  {
  }

  /* ---------- What declarations define, without a walk ---------- */

  /** The definition of a class over its superclass, if its declaration is in order. */
  function LaidOut(src: ClassSources, n: string, base: Option<ClassDef>): Option<ClassDef>
    requires n in src.byLocal
  {
    var decl, name := src.byLocal[n], Mangle(src.moduleId, n);
    if Listable(src, decl.implementsTypes) && LayoutOk(name, decl, base, ListedInterfaces(src, decl.implementsTypes))
    then Some(LayoutClass(name, decl, base, ListedInterfaces(src, decl.implementsTypes))) else None
  }

  /** The definition of a class whose superclass chain leaves the module within `k` steps. */
  function ClassDefOf(src: ClassSources, n: string, k: nat): Option<ClassDef>
    requires n in src.byLocal
    decreases k, 0
  {
    if k == 0 then None
    else if src.byLocal[n].superclass.None? then LaidOut(src, n, None)
    else
      var base := ClassRefDef(src, src.byLocal[n].superclass.value, k - 1);
      if base.None? then None else LaidOut(src, n, base)
  }

  function ClassRefDef(src: ClassSources, ref: TypeRef, k: nat): Option<ClassDef>
    decreases k, 1
  {
    if ref.namespace.Some? then
      if ref.namespace.value in src.namespaces && ref.name in src.namespaces[ref.namespace.value]
      then Some(src.namespaces[ref.namespace.value][ref.name]) else None
    else if ref.name in src.byLocal then ClassDefOf(src, ref.name, k)
    else if ref.name in src.imported then Some(src.imported[ref.name]) else None
  }

  /** The declaration has a definition: it is in no cycle, its superclasses and interfaces
      are known, and it and its superclasses are in order. */
  ghost predicate ClassDerivable(src: ClassSources, n: string) {
    n in src.byLocal && exists k :: ClassDefOf(src, n, k).Some?
  }

  ghost predicate ClassDenotes(src: ClassSources, ref: TypeRef, d: ClassDef) {
    exists k :: ClassRefDef(src, ref, k) == Some(d)
  }

  lemma {:induction false} DeeperClass(src: ClassSources, n: string, k: nat, m: nat)
    requires n in src.byLocal && ClassDefOf(src, n, k).Some? && k <= m
    ensures ClassDefOf(src, n, m) == ClassDefOf(src, n, k)
    decreases k
  {
    hide LaidOut;
    if src.byLocal[n].superclass.Some? {
      var ref := src.byLocal[n].superclass.value;
      if ref.namespace.None? && ref.name in src.byLocal { DeeperClass(src, ref.name, k - 1, m - 1); }
    }
  }

  lemma DeeperClassRef(src: ClassSources, ref: TypeRef, k: nat, m: nat)
    requires ClassRefDef(src, ref, k).Some? && ClassRefDef(src, ref, m).Some?
    ensures ClassRefDef(src, ref, m) == ClassRefDef(src, ref, k)
  {
    hide LaidOut;
    if ref.namespace.None? && ref.name in src.byLocal {
      if k <= m { DeeperClass(src, ref.name, k, m); } else { DeeperClass(src, ref.name, m, k); }
    }
  }

  ghost predicate ClassWithinReach(src: ClassSources, ref: TypeRef, visiting: set<string>, k: nat) {
    ClassRefDef(src, ref, k).Some? && forall w | w in visiting && w in src.byLocal :: ClassDefOf(src, w, k).None?
  }

  /** The definition is within reach without meeting any of the names being visited. */
  ghost predicate ClassReachable(src: ClassSources, ref: TypeRef, visiting: set<string>) {
    exists k :: ClassWithinReach(src, ref, visiting, k)
  }

  lemma LeastClassDepth(src: ClassSources, n: string, k: nat) returns (m: nat)
    requires n in src.byLocal && ClassDefOf(src, n, k).Some?
    ensures 0 < m <= k && ClassDefOf(src, n, m).Some? && ClassDefOf(src, n, m - 1).None?
  {
    hide LaidOut;
    m := k;
    while ClassDefOf(src, n, m - 1).Some?
      invariant 0 < m <= k && ClassDefOf(src, n, m).Some?
      decreases m
    {
      m := m - 1;
    }
  }

  lemma SuperclassWithinReach(src: ClassSources, n: string, visiting: set<string>)
    requires n in src.byLocal && ClassReachable(src, Here(n), visiting) && src.byLocal[n].superclass.Some?
    ensures ClassReachable(src, src.byLocal[n].superclass.value, visiting + {n})
  {
    hide LaidOut;
    var k: nat :| ClassWithinReach(src, Here(n), visiting, k);
    var m := LeastClassDepth(src, n, k);
    forall w | w in visiting + {n} && w in src.byLocal ensures ClassDefOf(src, w, m - 1).None? {
      if ClassDefOf(src, w, m - 1).Some? && w != n { DeeperClass(src, w, m - 1, k); }
    }
    assert ClassWithinReach(src, src.byLocal[n].superclass.value, visiting + {n}, m - 1);
  }

  lemma VisitedClassIsNoReach(src: ClassSources, n: string, visiting: set<string>)
    requires n in src.byLocal && n in visiting
    ensures !ClassReachable(src, Here(n), visiting)
  {
    hide ClassDefOf;
  }

  lemma ClassReachableHere(src: ClassSources, ref: TypeRef, visiting: set<string>)
    requires ClassReachable(src, ref, visiting)
    ensures if ref.namespace.Some? then ref.namespace.value in src.namespaces && ref.name in src.namespaces[ref.namespace.value]
            else if ref.name in src.byLocal then ClassReachable(src, Here(ref.name), visiting) else ref.name in src.imported
  {
    hide ClassDefOf;
    var k: nat :| ClassWithinReach(src, ref, visiting, k);
    if ref.namespace.None? { assert ClassWithinReach(src, Here(ref.name), visiting, k) || ref.name !in src.byLocal; }
  }

  lemma ClassDerivableIsReachable(src: ClassSources, n: string)
    requires ClassDerivable(src, n)
    ensures ClassReachable(src, Here(n), {})
  {
    hide ClassDefOf;
    var k: nat :| ClassDefOf(src, n, k).Some?;
    assert ClassWithinReach(src, Here(n), {}, k);
  }

  lemma ClassInvariantAt(src: ClassSources, known: map<string, InterfaceDef>, p: ClassProgress, n: string)
    requires ClassInvariant(src, known, p) && n in p.done && n in p.classes
    ensures CompleteClass(src, known, p, n, p.classes[n])
  {
  }

  lemma CompleteClassLaidOut(src: ClassSources, known: map<string, InterfaceDef>, p: ClassProgress, n: string, d: ClassDef)
    requires CompleteClass(src, known, p, n, d) && !p.failed
    ensures LaidOut(src, n, d.superclass) == Some(d)
  {
    hide LayoutOk, LayoutClass, Finished, Mangle, LookupInterface, RegisteredClass;
  }

  /** Without a diagnostic, what has been collected is what the declarations define. */
  lemma {:induction false} ResolvedClassDenotes(src: ClassSources, known: map<string, InterfaceDef>, p: ClassProgress,
                                                ref: TypeRef, d: ClassDef)
    requires ClassInvariant(src, known, p) && !p.failed && ResolvesClass(src, p, ref, d)
    ensures ClassDenotes(src, ref, d)
    decreases d
  {
    hide ClassInvariant, LaidOut;
    if ref.namespace.None? && ref.name in src.byLocal {
      hide UsableClass, ImplementsListed, Listable, Mangle;
      ClassInvariantAt(src, known, p, ref.name);
      CompleteClassLaidOut(src, known, p, ref.name, d);
      if d.superclass.Some? {
        ResolvedClassDenotes(src, known, p, d.decl.superclass.value, d.superclass.value);
        var k: nat :| ClassRefDef(src, d.decl.superclass.value, k) == d.superclass;
        assert ClassRefDef(src, ref, k + 1) == Some(d);
      } else {
        assert ClassRefDef(src, ref, 1) == Some(d);
      }
    } else {
      assert ClassRefDef(src, ref, 0) == Some(d);
    }
  }

  ghost predicate SuperclassResolved(src: ClassSources, p: ClassProgress, n: string, base: Option<ClassDef>)
    requires n in src.byLocal
  {
    (base.Some? <==> src.byLocal[n].superclass.Some?)
    && (base.Some? ==> ResolvesClass(src, p, src.byLocal[n].superclass.value, base.value))
  }

  /** Over the superclass that the walk has found, a class with a definition is in order. */
  lemma LaidOutAsDefinedClass(src: ClassSources, known: map<string, InterfaceDef>, p: ClassProgress, n: string,
                              visiting: set<string>, base: Option<ClassDef>)
    requires ClassInvariant(src, known, p) && !p.failed && n in src.byLocal && ClassReachable(src, Here(n), visiting)
    requires SuperclassResolved(src, p, n, base)
    ensures LaidOut(src, n, base).Some?
  {
    hide ClassInvariant, LaidOut, ResolvesClass;
    var k: nat :| ClassWithinReach(src, Here(n), visiting, k);
    assert ClassDefOf(src, n, k).Some?;
    if base.Some? {
      var ref := src.byLocal[n].superclass.value;
      ResolvedClassDenotes(src, known, p, ref, base.value);
      var j: nat :| ClassRefDef(src, ref, j) == base;
      DeeperClassRef(src, ref, j, k - 1);
    }
  }

  lemma ReachableIsListable(src: ClassSources, n: string, visiting: set<string>)
    requires n in src.byLocal && ClassReachable(src, Here(n), visiting)
    ensures Listable(src, src.byLocal[n].implementsTypes)
  {
    hide LayoutOk, LayoutClass, Listable;
    var k: nat :| ClassWithinReach(src, Here(n), visiting, k);
    assert ClassDefOf(src, n, k).Some?;
  }

  lemma ListedLayout(src: ClassSources, n: string, base: Option<ClassDef>, ifaces: seq<InterfaceDef>)
    requires n in src.byLocal && ImplementsListed(src, src.byLocal[n].implementsTypes, ifaces) && LaidOut(src, n, base).Some?
    ensures LayoutOk(Mangle(src.moduleId, n), src.byLocal[n], base, ifaces)
  {
    hide LayoutOk, LayoutClass, Listable, LookupInterface;
  }

  class ClassCollector {
    const src: ClassSources
    /** The interface table by mangled name, complete before classes are collected. */
    ghost const known: map<string, InterfaceDef>
    var classes: map<string, ClassDef>
    var byMangled: map<string, ClassDef>
    var visiting: set<string>
    var done: set<string>
    var failed: bool

    ghost function State(): ClassProgress
      reads this
    {
      ClassProgress(classes, byMangled, visiting, done, failed)
    }

    ghost predicate Valid()
      reads this
    {
      ClassInvariant(src, known, State())
      && (forall r: TypeRef :: LookupInterface(src, r).Some? ==>
            UsableInterface(src, known, LookupInterface(src, r).value))
    }

    constructor (src: ClassSources, ghost known: map<string, InterfaceDef>, knownClasses: map<string, ClassDef>)
      requires SourcedClasses(src, known, knownClasses)
      ensures this.src == src && this.known == known && Valid() && done == visiting == {} && !failed
      ensures byMangled == knownClasses
    {
      hide ClassInvariant, Finished, Registered;
      SourcedStart(src, known, knownClasses);
      this.src, this.known := src, known;
      ghost var stubs := map n | n in src.byLocal :: ClassDef(Mangle(src.moduleId, n), None, [], [], [], [], src.byLocal[n]);
      StubsChangeNothing(src, known, knownClasses, stubs);
      classes := map n | n in src.byLocal :: ClassDef(Mangle(src.moduleId, n), None, [], [], [], [], src.byLocal[n]);
      byMangled, visiting, done, failed := knownClasses, {}, {}, false;
    }

    /** The `implements` list, without repetitions. */
    method ResolveImplements(refs: seq<TypeRef>) returns (ifaces: Option<seq<InterfaceDef>>)
      requires Valid()
      modifies this`failed
      ensures failed <==> old(failed) || !Listable(src, refs)
      ensures ifaces.None? ==> failed
      ensures ifaces.Some? ==> ImplementsListed(src, refs, ifaces.value)
      ensures ifaces.Some? ==> forall i | i in ifaces.value :: UsableInterface(src, known, i)
    {
      hide ClassInvariant, Finished, Registered, UsableInterface, ImplementsListed, Listable;
      NothingListed(src);
      var found: seq<InterfaceDef> := [];
      var seen: set<string> := {};
      var i := 0;
      while i < |refs|
        invariant 0 <= i <= |refs|
        invariant failed <==> old(failed) || !Listable(src, refs[..i])
        invariant forall k | 0 <= k < |found| :: found[k].name in seen
        invariant forall n | n in seen :: exists k | 0 <= k < |found| :: found[k].name == n
        invariant ImplementsListed(src, refs[..i], found)
        invariant forall d | d in found :: UsableInterface(src, known, d)
      {
        var iface := LookupInterface(src, refs[i]);
        assert refs[..i + 1] == refs[..i] + [refs[i]];
        if iface.None? {
          UnknownNotListable(src, refs, i);
          failed := true;
          return None;
        }
        if Listable(src, refs[..i + 1]) {
          assert refs[..i + 1][..i] == refs[..i];
          PrefixListable(src, refs[..i + 1], i);
        }
        if iface.value.name in seen {
          failed := true;
          ListedAgain(src, refs[..i], refs[i], found);
        } else {
          ListedNew(src, refs[..i], refs[i], found);
          ghost var shorter := found;
          seen := seen + {iface.value.name};
          found := found + [iface.value];
          assert found[|shorter|].name == iface.value.name;
          assert forall k | 0 <= k < |shorter| :: found[k] == shorter[k];
        }
        i := i + 1;
      }
      assert refs[..i] == refs;
      ifaces := Some(found);
    }

    method FinishClass(localName: string) returns (r: Option<ClassDef>)
      requires Valid() && localName in src.byLocal
      modifies this
      ensures Valid() && ClassExtends(src, old(State()), State()) && visiting == old(visiting)
      ensures r.None? ==> failed
      ensures r.Some? ==> ResolvesClass(src, State(), TypeRef(None, localName), r.value)
      ensures ClassReachable(src, Here(localName), old(visiting)) && !old(failed) ==> !failed
      decreases src.byLocal.Keys - visiting, 0
    {
      hide ClassInvariant, UsableClass, FinishedClass, ClassExtends, Finished, Registered, CompleteClass, UsableInterface,
           LookupInterface, Mangle, ClassReachable;
      ClassInvariantBasics(src, known, State());
      ClassExtendsReflexive(src, State());
      if localName in done {
        return if localName in classes then Some(classes[localName]) else None;
      }
      if localName in visiting {
        VisitedClassIsNoReach(src, localName, visiting);
        RevisitClass(src, known, State(), State(), visiting, true);
        failed := true;
        return None;
      }
      RevisitClass(src, known, State(), State(), visiting + {localName}, failed);
      visiting := visiting + {localName};
      var decl := src.byLocal[localName];
      var superclass: Option<ClassDef> := None;
      if decl.superclass.Some? {
        ghost var before := State();
        if ClassReachable(src, Here(localName), old(visiting)) { SuperclassWithinReach(src, localName, old(visiting)); }
        superclass := LookupSuperclass(decl.superclass.value);
        ClassExtendsTransitive(src, old(State()), before, State());
        if superclass.None? {
          ClassInvariantBasics(src, known, State());
          RevisitClass(src, known, old(State()), State(), visiting - {localName}, true);
          failed := true;
          visiting := visiting - {localName};
          return None;
        }
        ResolvedClassIsUsable(src, known, State(), decl.superclass.value, superclass.value);
      }
      ghost var ready := State();
      r := FinishOver(localName, superclass, old(visiting));
      ClassExtendsTransitive(src, old(State()), ready, State());
    }

    /** The interfaces and the layout, once the superclass is known. */
    method FinishOver(localName: string, superclass: Option<ClassDef>, ghost others: set<string>) returns (r: Option<ClassDef>)
      requires Valid() && localName in src.byLocal && visiting == others + {localName} && localName !in others
      requires SuperclassResolved(src, State(), localName, superclass)
      requires superclass.Some? ==> UsableClass(src, known, State(), superclass.value)
      modifies this
      ensures Valid() && ClassExtends(src, old(State()), State()) && visiting == others
      ensures r.None? ==> failed
      ensures r.Some? ==> ResolvesClass(src, State(), TypeRef(None, localName), r.value)
      ensures ClassReachable(src, Here(localName), others) && !old(failed) ==> !failed
    {
      hide ClassInvariant, UsableClass, FinishedClass, ClassExtends, ImplementsListed, InterfacesRegistered,
           LayoutOk, LayoutClass, Finished, Registered, CompleteClass, ScanOf, VtableOf, PlaceMethods, Reindex,
           Complies, ConstructorOk, ResolvedParams, RegisteredClass, UsableInterface, LookupInterface, Mangle, Listable,
           ListedInterfaces, ClassReachable, LaidOut;
      ghost var start := State();
      ClassInvariantBasics(src, known, start);
      ClassExtendsReflexive(src, start);
      if ClassReachable(src, Here(localName), others) { ReachableIsListable(src, localName, others); }
      var ifaces := ResolveImplements(src.byLocal[localName].implementsTypes);
      RevisitClass(src, known, start, start, others, failed);
      visiting := visiting - {localName};
      assert visiting == others;
      if ifaces.None? {
        return None;
      }
      ghost var left := State();
      UsableAfterLeaving(src, known, start, left, superclass, src.byLocal[localName].superclass);
      if ClassReachable(src, Here(localName), others) && !failed {
        LaidOutAsDefinedClass(src, known, left, localName, others, superclass);
        ListedLayout(src, localName, superclass, ifaces.value);
      }
      r := LayOut(localName, superclass, ifaces.value);
      ClassExtendsTransitive(src, start, left, State());
    }

    /** Fields, vtable and checks of one class whose superclass and interfaces are known. */
    method LayOut(localName: string, superclass: Option<ClassDef>,
                  ifaces: seq<InterfaceDef>) returns (r: Option<ClassDef>)
      requires Valid() && localName in src.byLocal && localName !in done && localName !in visiting
      requires superclass.Some? <==> src.byLocal[localName].superclass.Some?
      requires superclass.Some? ==> UsableClass(src, known, State(), superclass.value)
      requires superclass.Some? ==> ResolvesClass(src, State(), src.byLocal[localName].superclass.value, superclass.value)
      requires ImplementsListed(src, src.byLocal[localName].implementsTypes, ifaces)
      requires forall i | i in ifaces :: UsableInterface(src, known, i)
      requires failed || Listable(src, src.byLocal[localName].implementsTypes)
      modifies this
      ensures Valid() && ClassExtends(src, old(State()), State()) && visiting == old(visiting)
      ensures r.Some? <==> LayoutOk(Mangle(src.moduleId, localName), src.byLocal[localName], superclass, ifaces)
      ensures r.None? ==> failed
      ensures r.Some? ==> failed == old(failed)
      ensures r.Some? ==> ResolvesClass(src, State(), TypeRef(None, localName), r.value)
    {
      hide ClassInvariant, UsableClass, FinishedClass, ClassExtends, ImplementsListed, InterfacesRegistered,
           LayoutOk, LayoutClass, Finished, Registered, CompleteClass, ScanOf, VtableOf, PlaceMethods, Reindex,
           Complies, ConstructorOk, ResolvedParams, RegisteredClass, UsableInterface, LookupInterface, Mangle;
      var decl, name := src.byLocal[localName], Mangle(src.moduleId, localName);
      var s := ReadMembers(name, decl, superclass);
      var fields := ReindexFields(s.fields);
      var methods, placed := PlaceOwn(if superclass.Some? then superclass.value.methods else [], s.own, name);
      var checked := CheckClass(decl, methods, ifaces, s.ctor, superclass);
      CheckedLayout(name, decl, superclass, ifaces, methods, placed, checked);
      if !s.ok || !placed || !checked {
        DiscardClassKeepsInvariant(src, known, State(), localName);
        done, failed, classes := done + {localName}, true, classes - {localName};
        return None;
      }
      var def := ClassDef(name, superclass, ifaces, fields, methods,
                          if s.ctor.Some? then ResolvedParams(s.ctor.value) else [], decl);
      BuiltClassIsFinished(src, known, State(), def, s, fields, methods);
      PublishClassKeepsInvariant(src, known, State(), localName, def);
      done, classes, byMangled := done + {localName}, classes[localName := def], byMangled[def.name := def];
      r := Some(def);
    }

    method LookupSuperclass(ref: TypeRef) returns (base: Option<ClassDef>)
      requires Valid()
      modifies this
      ensures Valid() && ClassExtends(src, old(State()), State()) && visiting == old(visiting)
      ensures base.Some? ==> ResolvesClass(src, State(), ref, base.value)
      ensures ClassReachable(src, ref, old(visiting)) && !old(failed) ==> !failed && base.Some?
      decreases src.byLocal.Keys - visiting, 1
    {
      if ClassReachable(src, ref, visiting) { ClassReachableHere(src, ref, visiting); }
      base := None;
      if ref.namespace.Some? {
        if ref.namespace.value in src.namespaces && ref.name in src.namespaces[ref.namespace.value] {
          base := Some(src.namespaces[ref.namespace.value][ref.name]);
        }
      } else if ref.name in src.byLocal {
        base := FinishClass(ref.name);
      } else if ref.name in src.imported {
        base := Some(src.imported[ref.name]);
      }
    }
  }

  lemma ClassExtendsReflexive(src: ClassSources, p: ClassProgress)
    ensures ClassExtends(src, p, p)
  {
  }

  lemma NothingListed(src: ClassSources)
    ensures ImplementsListed(src, [], []) && Listable(src, [])
  {
  }

  lemma UnknownNotListable(src: ClassSources, refs: seq<TypeRef>, i: nat)
    requires i < |refs| && LookupInterface(src, refs[i]).None?
    ensures !Listable(src, refs)
  {
  }

  lemma PrefixListable(src: ClassSources, refs: seq<TypeRef>, i: nat)
    requires i <= |refs| && Listable(src, refs)
    ensures Listable(src, refs[..i])
  {
    hide LookupInterface;
    assert forall k | 0 <= k < i :: refs[..i][k] == refs[k];
  }

  lemma ListedAgain(src: ClassSources, refs: seq<TypeRef>, ref: TypeRef, found: seq<InterfaceDef>)
    requires ImplementsListed(src, refs, found) && LookupInterface(src, ref).Some?
    requires exists k | 0 <= k < |found| :: found[k].name == LookupInterface(src, ref).value.name
    ensures ImplementsListed(src, refs + [ref], found) && !Listable(src, refs + [ref])
  {
    hide LookupInterface;
    var all := refs + [ref];
    forall i | i in found ensures exists r | r in all :: LookupInterface(src, r) == Some(i) {
      var r :| r in refs && LookupInterface(src, r) == Some(i);
      assert r in all;
    }
    var k :| 0 <= k < |found| && found[k].name == LookupInterface(src, ref).value.name;
    assert found[k] in found;
    var r :| r in refs && LookupInterface(src, r) == Some(found[k]);
    var j :| 0 <= j < |refs| && refs[j] == r;
    assert all[j] == r && all[|refs|] == ref;
  }

  lemma ListedNew(src: ClassSources, refs: seq<TypeRef>, ref: TypeRef, found: seq<InterfaceDef>)
    requires ImplementsListed(src, refs, found) && LookupInterface(src, ref).Some?
    requires forall k | 0 <= k < |found| :: found[k].name != LookupInterface(src, ref).value.name
    ensures ImplementsListed(src, refs + [ref], found + [LookupInterface(src, ref).value])
    ensures Listable(src, refs) ==> Listable(src, refs + [ref])
  {
    hide LookupInterface;
    var all, more := refs + [ref], found + [LookupInterface(src, ref).value];
    assert more[|found|] == LookupInterface(src, ref).value;
    forall r | r in all ensures exists i | 0 <= i < |more| :: more[i].name == LookupInterface(src, r).value.name {
      if r in refs {
        var i :| 0 <= i < |found| && found[i].name == LookupInterface(src, r).value.name;
        assert more[i] == found[i];
      }
    }
    forall i | i in more ensures exists r | r in all :: LookupInterface(src, r) == Some(i) {
      if i in found {
        var r :| r in refs && LookupInterface(src, r) == Some(i);
        assert r in all;
      } else {
        assert ref in all;
      }
    }
    assert forall i | 0 <= i < |refs| :: all[i] == refs[i];
    if Listable(src, all) {
      assert Listable(src, refs);
      assert more == ListedInterfaces(src, all);
    }
  }

  lemma CheckedLayout(name: string, decl: ClassDecl, base: Option<ClassDef>, ifaces: seq<InterfaceDef>,
                      methods: seq<ClassMethod>, placed: bool, checked: bool)
    requires var s := ScanOf(name, decl, base);
      Vtable(methods, placed) == PlaceMethods(Vtable(if base.Some? then base.value.methods else [], true), s.own, name)
      && (checked <==> (!decl.isAbstract ==> forall i | 0 <= i < |methods| :: !methods[i].isAbstract)
                       && Complies(methods, ifaces) && ConstructorOk(s.ctor, base))
    ensures LayoutOk(name, decl, base, ifaces) <==> ScanOf(name, decl, base).ok && placed && checked
  {
    hide ScanOf, PlaceMethods, Complies, ConstructorOk;
  }

  lemma BuiltClassIsFinished(src: ClassSources, known: map<string, InterfaceDef>, p: ClassProgress, d: ClassDef, s: Scan,
                             fields: seq<ClassField>, methods: seq<ClassMethod>)
    requires d.superclass.Some? ==> UsableClass(src, known, p, d.superclass.value)
    requires forall i | i in d.implemented :: UsableInterface(src, known, i)
    requires s == ScanOf(d.name, d.decl, d.superclass) && s.ok && d.fields == fields == Reindex(s.fields)
    requires Vtable(methods, true) ==
        PlaceMethods(Vtable(if d.superclass.Some? then d.superclass.value.methods else [], true), s.own, d.name)
    requires d.methods == methods
    requires !d.decl.isAbstract ==> forall i | 0 <= i < |methods| :: !methods[i].isAbstract
    requires Complies(methods, d.implemented) && ConstructorOk(s.ctor, d.superclass)
    requires d.constructorParams == if s.ctor.Some? then ResolvedParams(s.ctor.value) else []
    ensures FinishedClass(d) && (src.unclaimed ==> InterfacesRegistered(known, d))
  {
    hide ScanOf, PlaceMethods, Complies, ConstructorOk;
  }

  lemma UsableAfterLeaving(src: ClassSources, known: map<string, InterfaceDef>, p: ClassProgress, q: ClassProgress,
                           base: Option<ClassDef>, ref: Option<TypeRef>)
    requires q == p.(visiting := q.visiting, failed := q.failed)
    requires base.Some? && ref.Some? ==> UsableClass(src, known, p, base.value) && ResolvesClass(src, p, ref.value, base.value)
    ensures base.Some? && ref.Some? ==> UsableClass(src, known, q, base.value) && ResolvesClass(src, q, ref.value, base.value)
  {
  }

  /** All classes of a module: without a diagnostic every declaration ends up with a
      finished definition whose superclass and interfaces are the ones it names. */
  method CollectClasses(src: ClassSources, ghost known: map<string, InterfaceDef>, knownClasses: map<string, ClassDef>,
                        declarations: seq<string>)
    returns (classes: map<string, ClassDef>, byMangled: map<string, ClassDef>, failed: bool)
    requires SourcedClasses(src, known, knownClasses)
    requires forall n | n in declarations :: n in src.byLocal
    ensures !failed ==> forall n | n in declarations ::
        n in classes && classes[n].name == Mangle(src.moduleId, n) && classes[n].decl == src.byLocal[n]
        && FinishedClass(classes[n])
        && (src.unclaimed ==> RegisteredClass(byMangled, classes[n]) && InterfacesRegistered(known, classes[n]))
        && (classes[n].superclass.Some? <==> src.byLocal[n].superclass.Some?)
        && ImplementsListed(src, src.byLocal[n].implementsTypes, classes[n].implemented)
        && Mangle(src.moduleId, n) in byMangled && byMangled[Mangle(src.moduleId, n)] == classes[n]
    ensures !failed <==> forall n | n in declarations :: ClassDerivable(src, n)
    ensures !failed ==> forall n | n in declarations :: n in classes && ClassDenotes(src, Here(n), classes[n])
    ensures forall n | n in knownClasses && n !in OwnNames(src.moduleId, src.byLocal.Keys) ::
        n in byMangled && byMangled[n] == knownClasses[n]
    ensures AllFinishedClasses(byMangled) && byMangled.Keys <= knownClasses.Keys + OwnNames(src.moduleId, src.byLocal.Keys)
    ensures src.unclaimed ==> AllRegisteredClasses(known, byMangled)
    ensures src.unclaimed ==> forall n | n in knownClasses :: n in byMangled && byMangled[n] == knownClasses[n]
  {
    hide ClassInvariant, SourcedClasses, FinishedClass, InterfacesRegistered, RegisteredClass, Finished, Registered,
         ClassDerivable, ClassDenotes, ClassReachable, ImplementsListed, OwnNames;
    var c := new ClassCollector(src, known, knownClasses);
    ghost var start := c.State();
    ClassExtendsReflexive(src, start);
    var i := 0;
    while i < |declarations|
      invariant 0 <= i <= |declarations|
      invariant c.src == src && c.known == known && c.Valid() && c.visiting == {}
      invariant ClassExtends(src, start, c.State())
      invariant !c.failed ==> forall n | n in declarations[..i] :: n in c.done
      invariant (forall n | n in declarations :: ClassDerivable(src, n)) ==> !c.failed
    {
      ghost var before := c.State();
      if ClassDerivable(src, declarations[i]) { ClassDerivableIsReachable(src, declarations[i]); }
      var _ := c.FinishClass(declarations[i]);
      ClassExtendsTransitive(src, start, before, c.State());
      assert declarations[..i + 1] == declarations[..i] + [declarations[i]];
      i := i + 1;
    }
    assert declarations[..i] == declarations;
    if !c.failed {
      AllClassesDone(src, known, c.State(), declarations);
      AllClassesDenoted(src, known, c.State(), declarations);
    }
    InvariantClasses(src, known, c.State());
    PendingClassesAreOwn(src, start);
    return c.classes, c.byMangled, c.failed;
  }

  lemma AllClassesDenoted(src: ClassSources, known: map<string, InterfaceDef>, p: ClassProgress, declarations: seq<string>)
    requires ClassInvariant(src, known, p) && !p.failed
    requires forall n | n in declarations :: n in src.byLocal && n in p.done && n in p.classes
    ensures forall n | n in declarations :: ClassDerivable(src, n) && ClassDenotes(src, Here(n), p.classes[n])
  {
    hide ClassInvariant, ClassDefOf;
    forall n | n in declarations ensures ClassDerivable(src, n) && ClassDenotes(src, Here(n), p.classes[n]) {
      ResolvedClassDenotes(src, known, p, Here(n), p.classes[n]);
      var k: nat :| ClassRefDef(src, Here(n), k) == Some(p.classes[n]);
      assert ClassDefOf(src, n, k).Some?;
    }
  }

  lemma AllClassesDone(src: ClassSources, known: map<string, InterfaceDef>, p: ClassProgress, declarations: seq<string>)
    requires ClassInvariant(src, known, p) && !p.failed && forall n | n in declarations :: n in p.done
    ensures forall n | n in declarations :: n in p.classes && CompleteClass(src, known, p, n, p.classes[n])
  {
  }
}
