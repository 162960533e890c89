/** Collecting the interfaces and classes of all modules, one after another. */
module ModuleTables {
  import opened Common
  import opened Types
  import opened Interfaces
  import opened InterfaceCollection
  import opened Classes
  import opened ClassCollection
  import opened Assignability

  /** What one module declares, in order, and what it imports: local names for mangled
      names of earlier modules, directly or in namespaces. */
  datatype ModuleDecls = ModuleDecls(
    moduleId: string,
    interfaces: map<string, InterfaceDecl>,
    interfaceOrder: seq<string>,
    classes: map<string, ClassDecl>,
    classOrder: seq<string>,
    imports: map<string, string>,
    namespaces: map<string, map<string, string>>)

  ghost predicate Listed(m: ModuleDecls) {
    (forall n :: n in m.interfaceOrder <==> n in m.interfaces) && (forall n :: n in m.classOrder <==> n in m.classes)
  }

  function Imported<D>(imports: map<string, string>, table: map<string, D>): map<string, D> {
    map n | n in imports && imports[n] in table :: table[imports[n]]
  }

  function ImportedSpaces<D>(spaces: map<string, map<string, string>>, table: map<string, D>): map<string, map<string, D>> {
    map s | s in spaces :: Imported(spaces[s], table)
  }

  function InterfaceNames(m: ModuleDecls): set<string> {
    OwnNames(m.moduleId, m.interfaces.Keys)
  }

  function ClassNames(m: ModuleDecls): set<string> {
    OwnNames(m.moduleId, m.classes.Keys)
  }

  /** No name of the module is taken. */
  predicate Unclaimed(env: Env, m: ModuleDecls) {
    InterfaceNames(m) !! env.interfaces.Keys && ClassNames(m) !! env.classes.Keys
  }

  ghost predicate FinishedTables(env: Env) {
    AllFinished(env.interfaces) && AllFinishedClasses(env.classes)
  }

  lemma CollectedSplit(env: Env)
    ensures Collected(env) <==>
      FinishedTables(env) && AllRegistered(env.interfaces) && AllRegisteredClasses(env.interfaces, env.classes)
  {
    hide Finished, Registered, FinishedClass, RegisteredClass, InterfacesRegistered;
  }

  /** Everything declared has its definition in the tables. */
  ghost predicate Declared(env: Env, m: ModuleDecls) {
    (forall n | n in m.interfaces ::
       Mangle(m.moduleId, n) in env.interfaces && env.interfaces[Mangle(m.moduleId, n)].decl == m.interfaces[n])
    && (forall n | n in m.classes ::
          Mangle(m.moduleId, n) in env.classes && env.classes[Mangle(m.moduleId, n)].decl == m.classes[n])
  }

  ghost predicate Grows(env: Env, next: Env) {
    (forall n | n in env.interfaces :: n in next.interfaces && next.interfaces[n] == env.interfaces[n])
    && (forall n | n in env.classes :: n in next.classes && next.classes[n] == env.classes[n])
  }

  lemma ImportsSourced(env: Env, m: ModuleDecls, src: Sources)
    requires FinishedTables(env) && (src.unclaimed ==> Collected(env) && Unclaimed(env, m))
    requires src == Sources(m.moduleId, src.unclaimed, m.interfaces, Imported(m.imports, env.interfaces),
                            ImportedSpaces(m.namespaces, env.interfaces))
    ensures Sourced(src, env.interfaces)
  {
    hide Finished, Registered, FinishedClass, RegisteredClass, InterfacesRegistered;
    CollectedSplit(env);
    forall n | src.unclaimed && n in src.byLocal ensures Mangle(src.moduleId, n) !in env.interfaces {
      assert Mangle(src.moduleId, n) in InterfaceNames(m);
    }
  }

  lemma {:induction false} InterfacesRegisteredGrows(known: map<string, InterfaceDef>, larger: map<string, InterfaceDef>,
                                                     d: ClassDef)
    requires InterfacesRegistered(known, d) && forall n | n in known :: n in larger && larger[n] == known[n]
    ensures InterfacesRegistered(larger, d)
    decreases d
  {
    if d.superclass.Some? { InterfacesRegisteredGrows(known, larger, d.superclass.value); }
    forall i | i in d.implemented ensures Registered(larger, i) { RegisteredGrows(known, larger, i); }
  }

  /** Classes collected earlier stay registered when the interface table grows. */
  lemma ClassesKept(known: map<string, InterfaceDef>, larger: map<string, InterfaceDef>, table: map<string, ClassDef>)
    requires AllRegisteredClasses(known, table) && forall n | n in known :: n in larger && larger[n] == known[n]
    ensures AllRegisteredClasses(larger, table)
  {
    forall n | n in table ensures InterfacesRegistered(larger, table[n]) {
      InterfacesRegisteredGrows(known, larger, table[n]);
    }
  }

  /** What class collection starts from once the interfaces of the module are in place. */
  ghost predicate ReadyForClasses(env: Env, m: ModuleDecls, src: ClassSources, table: map<string, InterfaceDef>,
                                  interfaces: map<string, InterfaceDef>)
  {
    src == ClassSources(m.moduleId, src.unclaimed, m.classes, Imported(m.imports, env.classes),
                        ImportedSpaces(m.namespaces, env.classes), Imported(m.imports, env.interfaces) + interfaces,
                        ImportedSpaces(m.namespaces, env.interfaces))
    && FinishedTables(env) && AllFinished(table)
    && (forall n | n in interfaces :: Finished(interfaces[n]))
    && (src.unclaimed ==>
          Collected(env) && Unclaimed(env, m) && AllRegistered(table)
          && (forall n | n in env.interfaces :: n in table && table[n] == env.interfaces[n])
          && (forall n | n in interfaces :: Registered(table, interfaces[n])))
  }

  lemma InterfacesUsable(env: Env, m: ModuleDecls, src: ClassSources, table: map<string, InterfaceDef>,
                         interfaces: map<string, InterfaceDef>, ref: TypeRef)
    requires ReadyForClasses(env, m, src, table, interfaces) && LookupInterface(src, ref).Some?
    ensures UsableInterface(src, table, LookupInterface(src, ref).value)
  {
    hide Finished, Registered, FinishedClass, RegisteredClass, InterfacesRegistered;
    var d := LookupInterface(src, ref).value;
    if ref.namespace.Some? {
      assert d == env.interfaces[m.namespaces[ref.namespace.value][ref.name]];
      EarlierUsable(env, m, src, table, interfaces, m.namespaces[ref.namespace.value][ref.name]);
    } else if ref.name !in interfaces {
      EarlierUsable(env, m, src, table, interfaces, m.imports[ref.name]);
    }
  }

  lemma EarlierUsable(env: Env, m: ModuleDecls, src: ClassSources, table: map<string, InterfaceDef>,
                      interfaces: map<string, InterfaceDef>, n: string)
    requires ReadyForClasses(env, m, src, table, interfaces) && n in env.interfaces
    ensures UsableInterface(src, table, env.interfaces[n])
  {
    hide Finished, FinishedClass, RegisteredClass, InterfacesRegistered;
    CollectedSplit(env);
    if src.unclaimed { RegisteredGrows(env.interfaces, table, env.interfaces[n]); }
  }

  lemma ClassesUsable(env: Env, m: ModuleDecls, src: ClassSources, table: map<string, InterfaceDef>,
                      interfaces: map<string, InterfaceDef>)
    requires ReadyForClasses(env, m, src, table, interfaces)
    ensures AllFinishedClasses(env.classes) && (src.unclaimed ==> AllRegisteredClasses(table, env.classes))
    ensures forall n | n in env.classes ::
        UsableClass(src, table, ClassProgress(map[], env.classes, {}, {}, false), env.classes[n])
  {
    hide Finished, Registered, FinishedClass, RegisteredClass, InterfacesRegistered, Unclaimed, Imported, ImportedSpaces;
    CollectedSplit(env);
    if src.unclaimed { ClassesKept(env.interfaces, table, env.classes); }
  }

  lemma ClassNamesFree(env: Env, m: ModuleDecls)
    requires Unclaimed(env, m)
    ensures forall n | n in m.classes :: Mangle(m.moduleId, n) !in env.classes
  {
    hide Mangle;
    forall n | n in m.classes ensures Mangle(m.moduleId, n) !in env.classes {
      assert Mangle(m.moduleId, n) in ClassNames(m);
    }
  }

  lemma ClassImportsSourced(env: Env, m: ModuleDecls, src: ClassSources, table: map<string, InterfaceDef>,
                            interfaces: map<string, InterfaceDef>)
    requires ReadyForClasses(env, m, src, table, interfaces)
    ensures SourcedClasses(src, table, env.classes)
  {
    hide Finished, Registered, UsableClass, LookupInterface, UsableInterface, Collected, FinishedTables, AllFinished,
         AllRegistered, AllFinishedClasses, AllRegisteredClasses, Mangle, Unclaimed;
    ClassesUsable(env, m, src, table, interfaces);
    forall r: TypeRef | LookupInterface(src, r).Some? ensures UsableInterface(src, table, LookupInterface(src, r).value) {
      InterfacesUsable(env, m, src, table, interfaces, r);
    }
    if src.unclaimed { ClassNamesFree(env, m); }
  }

  /** Entries under names that are not the module's are as they were. */
  ghost predicate OthersKept(env: Env, next: Env, m: ModuleDecls) {
    (forall n | n in env.interfaces && n !in InterfaceNames(m) ::
       n in next.interfaces && next.interfaces[n] == env.interfaces[n])
    && (forall n | n in env.classes && n !in ClassNames(m) :: n in next.classes && next.classes[n] == env.classes[n])
  }

  /** One module. Its definitions replace those that had their names; nothing else
      changes. After an error in its interfaces its classes are not collected. */
  method CollectModule(m: ModuleDecls, env: Env, registered: bool) returns (next: Env, failed: bool)
    requires Listed(m) && FinishedTables(env) && (registered ==> Collected(env))
    ensures FinishedTables(next)
    ensures registered && Unclaimed(env, m) ==> Collected(next) && Grows(env, next)
    ensures !failed ==> Declared(next, m)
    ensures OthersKept(env, next, m)
    ensures next.interfaces.Keys <= env.interfaces.Keys + InterfaceNames(m)
    ensures next.classes.Keys <= env.classes.Keys + ClassNames(m)
  {
    hide Finished, Registered, FinishedClass, RegisteredClass, InterfacesRegistered, Collected, Sourced, SourcedClasses,
         AllFinished, AllRegistered, AllFinishedClasses, AllRegisteredClasses, Mangle, OwnNames, ImplementsListed, Derivable,
         ClassDerivable, Denotes, ClassDenotes, Declared, OthersKept;
    CollectedSplit(env);
    var unclaimed := registered && Unclaimed(env, m);
    var imported, spaces := Imported(m.imports, env.interfaces), ImportedSpaces(m.namespaces, env.interfaces);
    var src := Sources(m.moduleId, unclaimed, m.interfaces, imported, spaces);
    ImportsSourced(env, m, src);
    var interfaces, table, broken := CollectInterfaces(src, env.interfaces, m.interfaceOrder);
    next := Env(env.classes, table);
    CollectedSplit(next);
    if unclaimed { ClassesKept(env.interfaces, table, env.classes); }
    NowKept(env, next, m);
    if broken { return next, true; }
    var classSrc := ClassSources(m.moduleId, unclaimed, m.classes, Imported(m.imports, env.classes),
                                 ImportedSpaces(m.namespaces, env.classes), imported + interfaces, spaces);
    ClassImportsSourced(env, m, classSrc, table, interfaces);
    var classes, classTable, classesBroken := CollectClasses(classSrc, table, env.classes, m.classOrder);
    next, failed := Env(classTable, table), classesBroken;
    CollectedSplit(next);
    NowKept(env, next, m);
    if !failed { NowDeclared(next, m, interfaces, classes); }
  }

  lemma NowDeclared(env: Env, m: ModuleDecls, interfaces: map<string, InterfaceDef>, classes: map<string, ClassDef>)
    requires forall n | n in m.interfaces ::
        n in interfaces && interfaces[n].decl == m.interfaces[n]
        && Mangle(m.moduleId, n) in env.interfaces && env.interfaces[Mangle(m.moduleId, n)] == interfaces[n]
    requires forall n | n in m.classes ::
        n in classes && classes[n].decl == m.classes[n]
        && Mangle(m.moduleId, n) in env.classes && env.classes[Mangle(m.moduleId, n)] == classes[n]
    ensures Declared(env, m)
  {
    hide Mangle;
  }

  lemma NowKept(env: Env, next: Env, m: ModuleDecls)
    requires forall n | n in env.interfaces && n !in OwnNames(m.moduleId, m.interfaces.Keys) ::
        n in next.interfaces && next.interfaces[n] == env.interfaces[n]
    requires forall n | n in env.classes && n !in OwnNames(m.moduleId, m.classes.Keys) ::
        n in next.classes && next.classes[n] == env.classes[n]
    ensures OthersKept(env, next, m)
  {
    hide OwnNames;
  }

  /** No two modules share a mangled name, and none takes a builtin one. */
  predicate NamesDistinct(builtins: Env, mods: seq<ModuleDecls>) {
    (forall i | 0 <= i < |mods| :: Unclaimed(builtins, mods[i]))
    && (forall i, j | 0 <= i < j < |mods| ::
          InterfaceNames(mods[i]) !! InterfaceNames(mods[j]) && ClassNames(mods[i]) !! ClassNames(mods[j]))
  }

  ghost predicate NamesFrom(builtins: Env, mods: seq<ModuleDecls>, env: Env) {
    (forall n | n in env.interfaces :: n in builtins.interfaces || exists i | 0 <= i < |mods| :: n in InterfaceNames(mods[i]))
    && (forall n | n in env.classes :: n in builtins.classes || exists i | 0 <= i < |mods| :: n in ClassNames(mods[i]))
  }

  lemma NextIsUnclaimed(builtins: Env, mods: seq<ModuleDecls>, k: nat, env: Env)
    requires NamesDistinct(builtins, mods) && k < |mods| && NamesFrom(builtins, mods[..k], env)
    ensures Unclaimed(env, mods[k])
  {
    hide InterfaceNames, ClassNames;
    assert forall i | 0 <= i < k :: mods[..k][i] == mods[i];
    assert Unclaimed(builtins, mods[k]);
  }

  lemma NamesFromMore(builtins: Env, mods: seq<ModuleDecls>, k: nat, env: Env, next: Env)
    requires k < |mods| && NamesFrom(builtins, mods[..k], env)
    requires next.interfaces.Keys <= env.interfaces.Keys + InterfaceNames(mods[k])
    requires next.classes.Keys <= env.classes.Keys + ClassNames(mods[k])
    ensures NamesFrom(builtins, mods[..k + 1], next)
  {
    hide InterfaceNames, ClassNames;
    assert mods[..k + 1][k] == mods[k];
    assert forall i | 0 <= i < k :: mods[..k + 1][i] == mods[..k][i] == mods[i];
  }

  /** All modules in order. Whatever they declare, every entry of the tables is finished;
      and where no names collide, the tables are closed under their own references, and
      without an error every declaration has its definition there. */
  method CollectModules(builtins: Env, mods: seq<ModuleDecls>) returns (env: Env, failed: bool)
    requires Collected(builtins) && forall m | m in mods :: Listed(m)
    ensures FinishedTables(env)
    ensures NamesDistinct(builtins, mods) ==> Collected(env) && Grows(builtins, env)
    ensures NamesDistinct(builtins, mods) && !failed ==> forall m | m in mods :: Declared(env, m)
    ensures !failed && mods != [] ==> Declared(env, mods[|mods| - 1])
  {
    hide Collected, FinishedTables, Unclaimed, NamesDistinct, NamesFrom, Listed, Declared, InterfaceNames, ClassNames;
    env, failed := builtins, false;
    CollectedSplit(builtins);
    var distinct := NamesDistinct(builtins, mods);
    NoneYet(builtins, mods);
    var i := 0;
    while i < |mods|
      invariant 0 <= i <= |mods|
      invariant FinishedTables(env) && NamesFrom(builtins, mods[..i], env)
      invariant distinct ==> Collected(env) && Grows(builtins, env)
      invariant distinct && !failed ==> forall m | m in mods[..i] :: Declared(env, m)
      invariant !failed && i > 0 ==> Declared(env, mods[i - 1])
    {
      if distinct { NextIsUnclaimed(builtins, mods, i, env); }
      var next, broken := CollectModule(mods[i], env, distinct);
      NamesFromMore(builtins, mods, i, env, next);
      assert mods[..i + 1] == mods[..i] + [mods[i]];
      if distinct && !failed && !broken {
        forall m | m in mods[..i] ensures Declared(next, m) { DeclaredGrows(env, next, m); }
      }
      env, failed := next, failed || broken;
      i := i + 1;
    }
    assert mods[..i] == mods;
  }

  lemma NoneYet(builtins: Env, mods: seq<ModuleDecls>)
    ensures NamesFrom(builtins, mods[..0], builtins)
  {
  }

  lemma DeclaredGrows(env: Env, next: Env, m: ModuleDecls)
    requires Grows(env, next) && Declared(env, m)
    ensures Declared(next, m)
  {
    hide Mangle;
  }

  /* ---------- Two modules of one name ---------- */

  const NOTHING := InterfaceDecl([], [], NoIndex)
  const SIG := MethodSig([], Absent, false)
  const ONE_METHOD := InterfaceDecl([], [InterfaceMethodDecl("g", Some(SIG))], NoIndex)
  const METHOD := InterfaceMethod("g", SIG, 0)
  const IMPLEMENTOR := ClassDecl(false, None, [TypeRef(None, "I")], [])

  /** A file `m` with an interface `I` without methods and a class `C` that implements it. */
  function FirstInterfaces(): Sources {
    Sources("m", true, map["I" := NOTHING], map[], map[])
  }

  function FirstClasses(interfaces: map<string, InterfaceDef>): ClassSources {
    ClassSources("m", true, map["C" := IMPLEMENTOR], map[], map[], interfaces, map[])
  }

  /** Another file `m`, in another directory, with an interface `I` that has a method. */
  function SecondInterfaces(): Sources {
    Sources("m", false, map["I" := ONE_METHOD], map[], map[])
  }

  lemma DeclarationsDerivable()
    ensures Derivable(FirstInterfaces(), "I") && Derivable(SecondInterfaces(), "I")
    ensures Mangle("m", "I") == "m__I" && Mangle("m", "C") == "m__C"
    ensures OwnNames("m", {"I"}) == {"m__I"} && OwnNames("m", {"C"}) == {"m__C"}
  {
    assert "m" + "__" + "I" == "m__I" && "m" + "__" + "C" == "m__C";
    var t := EmptyItable("m__I");
    assert AddBases(t, []) == t && AddOwnMethods(t, []) == t;
    var own := ONE_METHOD.methods;
    assert own[1..] == [];
    assert AddOwnMethods(t, own) == AddOwnMethods(AddOwnMethod(t, own[0]), []);
    assert BasesOf(FirstInterfaces(), [], 0) == BasesOf(SecondInterfaces(), [], 0) == Some([]);
    assert DefOf(FirstInterfaces(), "I", 1).Some? && DefOf(SecondInterfaces(), "I", 1).Some?;
  }

  lemma OneMethodFinished(d: InterfaceDef)
    requires Finished(d) && d.bases == [] && d.decl == ONE_METHOD
    ensures d.methods == [METHOD]
  {
    var t := EmptyItable(d.name);
    assert AddBases(t, []) == t;
    assert ONE_METHOD.methods[1..] == [];
    assert AddOwnMethods(t, ONE_METHOD.methods) == AddOwnMethods(AddOwnMethod(t, ONE_METHOD.methods[0]), []);
  }

  lemma NothingFinished(d: InterfaceDef)
    requires Finished(d) && d.bases == [] && d.decl == NOTHING
    ensures d.methods == []
  {
    var t := EmptyItable(d.name);
    assert AddBases(t, []) == t && AddOwnMethods(t, []) == t;
  }

  lemma ImplementorDerivable(interfaces: map<string, InterfaceDef>)
    requires "I" in interfaces && interfaces["I"].methods == []
    ensures ClassDerivable(FirstClasses(interfaces), "C")
  {
    var src := FirstClasses(interfaces);
    var ifaces := ListedInterfaces(src, IMPLEMENTOR.implementsTypes);
    assert ScanOf("m__C", IMPLEMENTOR, None) == StartScan(None);
    assert VtableOf("m__C", IMPLEMENTOR, None) == Vtable([], true);
    assert Complies([], ifaces);
    assert "m" + "__" + "C" == "m__C";
    assert LaidOut(src, "C", None).Some?;
    assert ClassDefOf(src, "C", 1).Some?;
  }

  lemma ClassHasNothing(d: ClassDef)
    requires FinishedClass(d) && d.decl == IMPLEMENTOR && d.superclass.None?
    ensures d.methods == []
  {
  }

  /** Collecting both files ends without an error and with finished tables, in which the
      class is assignable to the second interface and lacks its method: the definition
      that the class implements is gone from the table. */
  method CollidingModules() returns (env: Env, failed: bool)
    ensures !failed && FinishedTables(env) && "m__C" in env.classes && "m__I" in env.interfaces
    ensures IsAssignable(env, NominalT(ClassKind, "m__C"), NominalT(InterfaceKind, "m__I"))
    ensures METHOD in env.interfaces["m__I"].methods && !HasMethod(env.classes["m__C"], METHOD)
    ensures !Collected(env)
  {
    hide Finished, Registered, FinishedClass, RegisteredClass, InterfacesRegistered, Derivable, ClassDerivable, Denotes, ClassDenotes,
         Mangle, OwnNames, ImplementsListed, IsAssignable, HasMethod, Collected, SourcedClasses;
    DeclarationsDerivable();
    var interfaces, table, firstFailed := CollectInterfaces(FirstInterfaces(), map[], ["I"]);
    NothingFinished(interfaces["I"]);
    ImplementorDerivable(interfaces);
    FirstClassesSourced(interfaces, table);
    var classes, classTable, classesFailed := CollectClasses(FirstClasses(interfaces), table, map[], ["C"]);
    var later, laterTable, laterFailed := CollectInterfaces(SecondInterfaces(), table, ["I"]);
    env, failed := Env(classTable, laterTable), firstFailed || classesFailed || laterFailed;
    Collision(env, interfaces);
  }

  lemma Collision(env: Env, interfaces: map<string, InterfaceDef>)
    requires "m__C" in env.classes && "m__I" in env.interfaces && "I" in interfaces && interfaces["I"].name == "m__I"
    requires var d := env.classes["m__C"];
      FinishedClass(d) && d.decl == IMPLEMENTOR && d.superclass.None?
      && ImplementsListed(FirstClasses(interfaces), IMPLEMENTOR.implementsTypes, d.implemented)
    requires var i := env.interfaces["m__I"];
      Finished(i) && i.bases == [] && i.decl == ONE_METHOD
    ensures IsAssignable(env, NominalT(ClassKind, "m__C"), NominalT(InterfaceKind, "m__I"))
    ensures METHOD in env.interfaces["m__I"].methods && !HasMethod(env.classes["m__C"], METHOD)
    ensures !Collected(env)
  {
    hide Finished, FinishedClass, ImplementsListed, Collected;
    ClassHasNothing(env.classes["m__C"]);
    OneMethodFinished(env.interfaces["m__I"]);
    ListedByName(FirstClasses(interfaces), env.classes["m__C"]);
    assert NominalAssignable(env, NominalT(ClassKind, "m__C"), NominalT(InterfaceKind, "m__I"));
    if Collected(env) { AssignableClassConforms(env, "m__C", "m__I", METHOD); }
  }

  lemma FirstClassesSourced(interfaces: map<string, InterfaceDef>, table: map<string, InterfaceDef>)
    requires interfaces.Keys <= {"I"} && ("I" in interfaces ==> Finished(interfaces["I"]) && Registered(table, interfaces["I"]))
    ensures SourcedClasses(FirstClasses(interfaces), table, map[])
  {
    hide Finished, Registered;
  }

  lemma ListedByName(src: ClassSources, d: ClassDef)
    requires "I" in src.interfaces && ImplementsListed(src, IMPLEMENTOR.implementsTypes, d.implemented)
    ensures Satisfies(d, src.interfaces["I"].name)
  {
    var ref := TypeRef(None, "I");
    assert ref in IMPLEMENTOR.implementsTypes && LookupInterface(src, ref) == Some(src.interfaces["I"]);
  }
}
