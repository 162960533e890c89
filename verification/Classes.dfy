/** Class definitions: field layout, vtables and interface compliance. */
module Classes {
  import opened Common
  import opened Types
  import opened Interfaces

  /** A class member; a `None` type or signature is an annotation that does not resolve. */
  datatype Member =
    | ConstructorM(params: seq<Option<Type>>)
    | FieldM(name: string, ty: Option<Type>, isStatic: bool, hasInitializer: bool)
    | MethodM(name: string, sig: Option<MethodSig>, isStatic: bool, isAbstract: bool, isPublic: bool,
              isGeneric: bool, typeParamsValid: bool)

  datatype ClassDecl = ClassDecl(
    isAbstract: bool,
    superclass: Option<TypeRef>,
    implementsTypes: seq<TypeRef>,
    members: seq<Member>)

  datatype ClassField = ClassField(name: string, ty: Type, declaringClass: string, fieldIndex: nat)

  datatype ClassMethod = ClassMethod(
    name: string,
    mangledName: string,
    sig: MethodSig,
    isPublic: bool,
    isAbstract: bool,
    vtableSlot: nat,
    implementingClass: string)

  datatype ClassDef = ClassDef(
    name: string,
    superclass: Option<ClassDef>,
    implemented: seq<InterfaceDef>,
    fields: seq<ClassField>,
    methods: seq<ClassMethod>,
    constructorParams: seq<Type>,
    decl: ClassDecl)

  /* ---------- Reading the members ---------- */

  datatype Scan = Scan(
    fields: seq<ClassField>,
    fieldNames: set<string>,
    staticNames: set<string>,
    methodNames: set<string>,
    own: seq<Member>,
    ctor: Option<seq<Option<Type>>>,
    ok: bool)

  function FieldNames(fs: seq<ClassField>): set<string> {
    set i | 0 <= i < |fs| :: fs[i].name
  }

  function ScanField(s: Scan, m: Member, cls: string): Scan
    requires m.FieldM?
  {
    if m.isStatic then
      if m.name in s.staticNames || m.name in s.methodNames then s.(ok := false)
      else s.(staticNames := s.staticNames + {m.name}, ok := s.ok && m.ty.Some?)
    else if m.name in s.fieldNames then s.(ok := false)
    else
      var named := s.(fieldNames := s.fieldNames + {m.name}, ok := s.ok && !m.hasInitializer && m.ty.Some?);
      if m.ty.None? then named
      else named.(fields := s.fields + [ClassField(m.name, m.ty.value, cls, |s.fields| + 1)])
  }

  function ScanMethod(s: Scan, m: Member, abstractClass: bool): Scan
    requires m.MethodM?
  {
    if m.name in s.methodNames || m.name in s.staticNames then s.(ok := false)
    else
      var named := s.(methodNames := s.methodNames + {m.name});
      if m.isGeneric then named.(ok := s.ok && m.typeParamsValid)
      else named.(own := s.own + [m],
                  ok := s.ok && (m.isAbstract ==> abstractClass && !m.isStatic))
  }

  function ScanMember(s: Scan, m: Member, cls: string, abstractClass: bool): Scan {
    match m
    case ConstructorM(params) => if s.ctor.Some? then s.(ok := false) else s.(ctor := Some(params))
    case FieldM(_, _, _, _) => ScanField(s, m, cls)
    case MethodM(_, _, _, _, _, _, _) => ScanMethod(s, m, abstractClass)
  }

  function ScanMembers(s: Scan, ms: seq<Member>, cls: string, abstractClass: bool): Scan
    decreases |ms|
  {
    if ms == [] then s else ScanMembers(ScanMember(s, ms[0], cls, abstractClass), ms[1..], cls, abstractClass)
  }

  function StartScan(base: Option<ClassDef>): Scan {
    var inherited := if base.Some? then base.value.fields else [];
    Scan(inherited, FieldNames(inherited), {}, {}, [], None, true)
  }

  function Reindex(fs: seq<ClassField>): (r: seq<ClassField>)
    ensures |r| == |fs|
    ensures forall i | 0 <= i < |fs| :: r[i].name == fs[i].name && r[i].fieldIndex == i + 1
  {
    seq(|fs|, i requires 0 <= i < |fs| => fs[i].(fieldIndex := i + 1))
  }

  /* ---------- The vtable ---------- */

  datatype Vtable = Vtable(methods: seq<ClassMethod>, ok: bool)

  function FindSlot(ms: seq<ClassMethod>, name: string): (r: Option<nat>)
    ensures r.Some? ==> r.value < |ms| && ms[r.value].name == name
    ensures r.None? ==> forall i | 0 <= i < |ms| :: ms[i].name != name
    decreases |ms|
  {
    if ms == [] then None
    else if ms[|ms| - 1].name == name then Some(|ms| - 1)
    else FindSlot(ms[..|ms| - 1], name)
  }

  function Implementation(m: Member, cls: string, slot: nat): ClassMethod
    requires m.MethodM? && m.sig.Some?
  {
    ClassMethod(m.name, cls + "__" + m.name, m.sig.value, m.isPublic, m.isAbstract, slot, cls)
  }

  function PlaceMethod(t: Vtable, m: Member, cls: string): Vtable
    requires m.MethodM?
  {
    if m.sig.None? then t.(ok := false)
    else if m.isStatic then t
    else
      var slot := FindSlot(t.methods, m.name);
      if slot.None? then t.(methods := t.methods + [Implementation(m, cls, |t.methods|)])
      else if !SameShape(t.methods[slot.value].sig, m.sig.value) then t.(ok := false)
      else t.(methods := t.methods[slot.value := Implementation(m, cls, slot.value)])
  }

  function PlaceMethods(t: Vtable, own: seq<Member>, cls: string): Vtable
    requires forall m | m in own :: m.MethodM?
    decreases |own|
  {
    if own == [] then t else PlaceMethods(PlaceMethod(t, own[0], cls), own[1..], cls)
  }

  /* ---------- Compliance and construction ---------- */

  predicate Implements(ms: seq<ClassMethod>, req: InterfaceMethod) {
    var slot := FindSlot(ms, req.name);
    slot.Some? && ms[slot.value].isPublic && SameSig(ms[slot.value].sig, req.sig)
  }

  predicate Complies(ms: seq<ClassMethod>, ifaces: seq<InterfaceDef>) {
    forall i, j | 0 <= i < |ifaces| && 0 <= j < |ifaces[i].methods| :: Implements(ms, ifaces[i].methods[j])
  }

  function ResolvedParams(params: seq<Option<Type>>): seq<Type> {
    if params == [] then []
    else (if params[0].Some? then [params[0].value] else []) + ResolvedParams(params[1..])
  }

  predicate ConstructorOk(ctor: Option<seq<Option<Type>>>, base: Option<ClassDef>) {
    if ctor.Some? then forall i | 0 <= i < |ctor.value| :: ctor.value[i].Some?
    else base.Some? ==> base.value.constructorParams == []
  }

  lemma {:induction false} ScanKeepsMethods(s: Scan, ms: seq<Member>, cls: string, abstractClass: bool)
    requires forall m | m in s.own :: m.MethodM?
    ensures forall m | m in ScanMembers(s, ms, cls, abstractClass).own :: m.MethodM?
    decreases |ms|
  {
    if ms != [] { ScanKeepsMethods(ScanMember(s, ms[0], cls, abstractClass), ms[1..], cls, abstractClass); }
  }

  function ScanOf(name: string, decl: ClassDecl, base: Option<ClassDef>): (s: Scan)
    ensures forall m | m in s.own :: m.MethodM?
  {
    ScanKeepsMethods(StartScan(base), decl.members, name, decl.isAbstract);
    ScanMembers(StartScan(base), decl.members, name, decl.isAbstract)
  }

  function VtableOf(name: string, decl: ClassDecl, base: Option<ClassDef>): Vtable {
    PlaceMethods(Vtable(if base.Some? then base.value.methods else [], true), ScanOf(name, decl, base).own, name)
  }

  /** The definition that a declaration is laid out to, ignoring errors. */
  function LayoutClass(name: string, decl: ClassDecl, base: Option<ClassDef>, ifaces: seq<InterfaceDef>): ClassDef {
    var s := ScanOf(name, decl, base);
    ClassDef(name, base, ifaces, Reindex(s.fields), VtableOf(name, decl, base).methods,
             if s.ctor.Some? then ResolvedParams(s.ctor.value) else [], decl)
  }

  predicate LayoutOk(name: string, decl: ClassDecl, base: Option<ClassDef>, ifaces: seq<InterfaceDef>) {
    var s, t := ScanOf(name, decl, base), VtableOf(name, decl, base);
    s.ok && t.ok
    && (!decl.isAbstract ==> forall i | 0 <= i < |t.methods| :: !t.methods[i].isAbstract)
    && Complies(t.methods, ifaces)
    && ConstructorOk(s.ctor, base)
  }

  /** A definition that the collector accepts. */
  ghost predicate FinishedClass(d: ClassDef) {
    LayoutOk(d.name, d.decl, d.superclass, d.implemented)
    && d == LayoutClass(d.name, d.decl, d.superclass, d.implemented)
    && (forall i | i in d.implemented :: Finished(i))
    && (d.superclass.Some? ==> FinishedClass(d.superclass.value))
  }

  /* ---------- Vtable facts ---------- */

  predicate WellSlotted(ms: seq<ClassMethod>) {
    (forall i | 0 <= i < |ms| :: ms[i].vtableSlot == i)
    && forall i, j | 0 <= i < j < |ms| :: ms[i].name != ms[j].name
  }

  /** `prefix` keeps its slots: same names and signatures, perhaps new implementations. */
  predicate SlotPrefix(prefix: seq<ClassMethod>, ms: seq<ClassMethod>) {
    |prefix| <= |ms|
    && forall i | 0 <= i < |prefix| :: ms[i].name == prefix[i].name && SameShape(ms[i].sig, prefix[i].sig)
  }

  lemma SlotPrefixTransitive(a: seq<ClassMethod>, b: seq<ClassMethod>, c: seq<ClassMethod>)
    requires SlotPrefix(a, b) && SlotPrefix(b, c)
    ensures SlotPrefix(a, c)
  {
    forall i | 0 <= i < |a| ensures SameShape(c[i].sig, a[i].sig) {
      SameShapeIsEquivalence(c[i].sig, b[i].sig, a[i].sig);
    }
  }

  lemma SlotPrefixReflexive(a: seq<ClassMethod>)
    ensures SlotPrefix(a, a)
  {
    forall i | 0 <= i < |a| ensures SameShape(a[i].sig, a[i].sig) {
      SameShapeIsEquivalence(a[i].sig, a[i].sig, a[i].sig);
    }
  }

  /** The slot entry `e` is the method `m` of class `cls`. */
  predicate IsEntry(e: ClassMethod, m: Member, cls: string) {
    m.MethodM? && m.sig.Some? && !m.isStatic
    && e.name == m.name && e.sig == m.sig.value && e.isAbstract == m.isAbstract && e.isPublic == m.isPublic
    && e.implementingClass == cls && e.mangledName == cls + "__" + m.name
  }

  /** The instance method of this name among a class's own methods. */
  function FindOwn(own: seq<Member>, name: string): Option<Member> {
    if own == [] then None
    else if own[0].MethodM? && !own[0].isStatic && own[0].name == name then Some(own[0])
    else FindOwn(own[1..], name)
  }

  predicate OwnNamesDistinct(own: seq<Member>) {
    (forall i | 0 <= i < |own| :: own[i].MethodM?)
    && forall i, j | 0 <= i < j < |own| :: own[i].name != own[j].name
  }

  lemma PlaceMethodFacts(t: Vtable, m: Member, cls: string)
    requires m.MethodM? && WellSlotted(t.methods) && PlaceMethod(t, m, cls).ok
    ensures t.ok && m.sig.Some?
    ensures var r := PlaceMethod(t, m, cls).methods;
      WellSlotted(r) && SlotPrefix(t.methods, r)
      && (forall i | 0 <= i < |r| :: (i < |t.methods| && r[i] == t.methods[i] && (m.isStatic || r[i].name != m.name))
                                     || (!m.isStatic && r[i].name == m.name && IsEntry(r[i], m, cls)))
      && (m.isStatic || exists i | 0 <= i < |r| :: r[i].name == m.name)
  {
    var r := PlaceMethod(t, m, cls).methods;
    SlotPrefixReflexive(t.methods);
    if !m.isStatic {
      var slot := FindSlot(t.methods, m.name);
      if slot.None? {
        assert r[|t.methods|].name == m.name;
      } else {
        SameShapeIsEquivalence(t.methods[slot.value].sig, m.sig.value, m.sig.value);
        assert r[slot.value].name == m.name;
      }
    }
  }

  lemma {:induction false} FindOwnNone(own: seq<Member>, name: string)
    requires forall i | 0 <= i < |own| :: own[i].MethodM? && own[i].name != name
    ensures FindOwn(own, name).None?
  {
    if own != [] { FindOwnNone(own[1..], name); }
  }

  /** After placing a class's own methods, an entry is its own method of that name
      if it has one and the inherited entry otherwise. */
  lemma {:induction false} PlaceMethodsFacts(t: Vtable, own: seq<Member>, cls: string)
    requires WellSlotted(t.methods) && OwnNamesDistinct(own)
    requires forall m | m in own :: m.MethodM?
    requires PlaceMethods(t, own, cls).ok
    ensures var r := PlaceMethods(t, own, cls).methods;
      WellSlotted(r) && SlotPrefix(t.methods, r)
      && (forall i | 0 <= i < |r| ::
            var mine := FindOwn(own, r[i].name);
            if mine.Some? then IsEntry(r[i], mine.value, cls) else i < |t.methods| && r[i] == t.methods[i])
      && (forall n | FindOwn(own, n).Some? :: FindSlot(r, n).Some?)
    ensures t.ok
    decreases |own|
  {
    var r := PlaceMethods(t, own, cls).methods;
    if own == [] {
      SlotPrefixReflexive(t.methods);
    } else {
      var m, rest := own[0], own[1..];
      var next := PlaceMethod(t, m, cls);
      assert next.ok by { PlacedOk(next, rest, cls); }
      PlaceMethodFacts(t, m, cls);
      PlaceMethodsFacts(next, rest, cls);
      SlotPrefixTransitive(t.methods, next.methods, r);
      FindOwnNone(rest, m.name);
      forall n | FindOwn(own, n).Some? ensures FindSlot(r, n).Some? {
        if FindOwn(rest, n).None? {
          var i :| 0 <= i < |next.methods| && next.methods[i].name == m.name;
          assert r[i].name == n;
        }
      }
    }
  }

  lemma {:induction false} PlacedOk(t: Vtable, own: seq<Member>, cls: string)
    requires forall m | m in own :: m.MethodM?
    requires PlaceMethods(t, own, cls).ok
    ensures t.ok
    decreases |own|
  {
    if own != [] { PlacedOk(PlaceMethod(t, own[0], cls), own[1..], cls); }
  }

  /* ---------- Field facts ---------- */

  predicate WellIndexed(fs: seq<ClassField>) {
    (forall i | 0 <= i < |fs| :: fs[i].fieldIndex == i + 1)
    && forall i, j | 0 <= i < j < |fs| :: fs[i].name != fs[j].name
  }

  predicate GoodFields(s: Scan, start: seq<ClassField>) {
    FieldNames(s.fields) <= s.fieldNames && WellIndexed(s.fields) && start <= s.fields
  }

  predicate GoodOwn(s: Scan) {
    OwnNamesDistinct(s.own) && forall i | 0 <= i < |s.own| :: s.own[i].name in s.methodNames
  }

  lemma ScanFieldFacts(s: Scan, m: Member, cls: string, start: seq<ClassField>)
    requires m.FieldM? && GoodFields(s, start)
    ensures GoodFields(ScanField(s, m, cls), start)
  {
    var r := ScanField(s, m, cls);
    if r.fields != s.fields {
      assert forall i | 0 <= i < |s.fields| :: s.fields[i].name in FieldNames(s.fields);
      forall n | n in FieldNames(r.fields) ensures n in r.fieldNames {
        var i :| 0 <= i < |r.fields| && r.fields[i].name == n;
        assert i < |s.fields| ==> s.fields[i].name in FieldNames(s.fields);
      }
    }
  }

  lemma ScanMethodFacts(s: Scan, m: Member, abstractClass: bool)
    requires m.MethodM? && GoodOwn(s)
    ensures var r := ScanMethod(s, m, abstractClass);
      GoodOwn(r) && r.fields == s.fields && r.fieldNames == s.fieldNames
      && (r.ok ==> s.ok && r.own == if m.isGeneric then s.own else s.own + [m])
  {
  }

  /** A class's own non-generic methods, in declaration order. */
  function OwnMethods(ms: seq<Member>): seq<Member> {
    if ms == [] then []
    else (if ms[0].MethodM? && !ms[0].isGeneric then [ms[0]] else []) + OwnMethods(ms[1..])
  }

  lemma {:induction false} ScanFacts(s: Scan, ms: seq<Member>, cls: string, abstractClass: bool, start: seq<ClassField>)
    requires GoodFields(s, start) && GoodOwn(s)
    ensures var r := ScanMembers(s, ms, cls, abstractClass);
      GoodFields(r, start) && GoodOwn(r) && (r.ok ==> s.ok && r.own == s.own + OwnMethods(ms))
    decreases |ms|
  {
    if ms == [] {
      assert s.own + [] == s.own;
    } else {
      hide GoodFields, GoodOwn;
      var m, next := ms[0], ScanMember(s, ms[0], cls, abstractClass);
      ScanMemberFacts(s, m, cls, abstractClass, start);
      ScanFacts(next, ms[1..], cls, abstractClass, start);
      var mine := if m.MethodM? && !m.isGeneric then [m] else [];
      assert s.own + mine + OwnMethods(ms[1..]) == s.own + (mine + OwnMethods(ms[1..]));
    }
  }

  lemma ScanMemberFacts(s: Scan, m: Member, cls: string, abstractClass: bool, start: seq<ClassField>)
    requires GoodFields(s, start) && GoodOwn(s)
    ensures var r := ScanMember(s, m, cls, abstractClass);
      GoodFields(r, start) && GoodOwn(r)
      && (r.ok ==> s.ok && r.own == s.own + if m.MethodM? && !m.isGeneric then [m] else [])
  {
    match m
    case ConstructorM(_) =>
    case FieldM(_, _, _, _) => ScanFieldFacts(s, m, cls, start);
    case MethodM(_, _, _, _, _, _, _) => ScanMethodFacts(s, m, abstractClass);
  }

  /* ---------- What a finished class looks like ---------- */

  /** The nearest class on the superclass chain that declares the instance method. */
  function LookupUp(d: ClassDef, name: string): Option<(string, Member)>
    decreases d
  {
    var own := FindOwn(OwnMethods(d.decl.members), name);
    if own.Some? then Some((d.name, own.value))
    else if d.superclass.Some? then LookupUp(d.superclass.value, name)
    else None
  }

  ghost predicate IsAncestor(a: ClassDef, d: ClassDef) {
    a == d || (d.superclass.Some? && IsAncestor(a, d.superclass.value))
  }

  lemma ScanOfFacts(name: string, decl: ClassDecl, base: Option<ClassDef>)
    requires base.Some? ==> WellIndexed(base.value.fields)
    ensures var s := ScanOf(name, decl, base);
      WellIndexed(s.fields) && OwnNamesDistinct(s.own) && (base.Some? ==> base.value.fields <= s.fields)
      && (s.ok ==> s.own == OwnMethods(decl.members))
  {
    var start := StartScan(base);
    ScanFacts(start, decl.members, name, decl.isAbstract, start.fields);
    assert [] + OwnMethods(decl.members) == OwnMethods(decl.members);
  }

  lemma {:induction false} FinishedClassFields(d: ClassDef)
    requires FinishedClass(d)
    ensures WellIndexed(d.fields) && (d.superclass.Some? ==> d.superclass.value.fields <= d.fields)
    ensures ScanOf(d.name, d.decl, d.superclass).own == OwnMethods(d.decl.members)
    ensures OwnNamesDistinct(OwnMethods(d.decl.members))
    decreases d
  {
    hide ScanOf, VtableOf, Complies, ConstructorOk;
    if d.superclass.Some? { FinishedClassFields(d.superclass.value); }
    ScanOfFacts(d.name, d.decl, d.superclass);
    ReindexOfIndexed(ScanOf(d.name, d.decl, d.superclass).fields);
  }

  lemma ReindexOfIndexed(fs: seq<ClassField>)
    requires WellIndexed(fs)
    ensures Reindex(fs) == fs
  {
  }

  /** Vtable layout refines method lookup up the superclass chain. */
  lemma {:induction false} VtableIsLookup(d: ClassDef)
    requires FinishedClass(d)
    ensures WellSlotted(d.methods)
    ensures d.superclass.Some? ==> SlotPrefix(d.superclass.value.methods, d.methods)
    ensures forall n :: LookupUp(d, n).Some? <==> FindSlot(d.methods, n).Some?
    ensures forall i | 0 <= i < |d.methods| ::
        var up := LookupUp(d, d.methods[i].name);
        up.Some? && IsEntry(d.methods[i], up.value.1, up.value.0)
    ensures !d.decl.isAbstract ==> forall i | 0 <= i < |d.methods| :: !d.methods[i].isAbstract
    decreases d
  {
    hide Finished, Complies, ConstructorOk, ScanOf, PlaceMethods;
    FinishedClassFields(d);
    var base := if d.superclass.Some? then d.superclass.value.methods else [];
    if d.superclass.Some? { VtableIsLookup(d.superclass.value); }
    var own := OwnMethods(d.decl.members);
    PlaceMethodsFacts(Vtable(base, true), own, d.name);
    forall n ensures LookupUp(d, n).Some? <==> FindSlot(d.methods, n).Some? {
      LookupIffSlot(d, own, base, n);
    }
  }

  lemma LookupIffSlot(d: ClassDef, own: seq<Member>, base: seq<ClassMethod>, n: string)
    requires own == OwnMethods(d.decl.members) && base == if d.superclass.Some? then d.superclass.value.methods else []
    requires SlotPrefix(base, d.methods)
    requires forall i | 0 <= i < |d.methods| ::
        if FindOwn(own, d.methods[i].name).Some? then d.methods[i].implementingClass == d.name
        else i < |base| && d.methods[i] == base[i]
    requires FindOwn(own, n).Some? ==> FindSlot(d.methods, n).Some?
    requires d.superclass.Some? ==> (LookupUp(d.superclass.value, n).Some? <==> FindSlot(base, n).Some?)
    ensures LookupUp(d, n).Some? <==> FindSlot(d.methods, n).Some?
  {
    if FindOwn(own, n).None? {
      var slot, inherited := FindSlot(d.methods, n), FindSlot(base, n);
      if inherited.Some? {
        assert d.methods[inherited.value].name == n;
      }
      if slot.Some? {
        assert base[slot.value].name == n;
      }
    }
  }

  /** Every ancestor's vtable is a name-and-signature prefix and every ancestor's
      fields are a prefix with the same field indices. */
  lemma {:induction false} AncestorLayoutIsPrefix(a: ClassDef, d: ClassDef)
    requires FinishedClass(d) && IsAncestor(a, d)
    ensures SlotPrefix(a.methods, d.methods) && a.fields <= d.fields && FinishedClass(a)
    decreases d
  {
    if a == d {
      SlotPrefixReflexive(d.methods);
    } else {
      AncestorLayoutIsPrefix(a, d.superclass.value);
      VtableIsLookup(d);
      FinishedClassFields(d);
      SlotPrefixTransitive(a.methods, d.superclass.value.methods, d.methods);
    }
  }

  /* ---------- Interface conformance ---------- */

  /** The walk of classSatisfiesInterface. */
  predicate Satisfies(d: ClassDef, iface: string)
    decreases d
  {
    (exists i | 0 <= i < |d.implemented| :: d.implemented[i].name == iface || iface in d.implemented[i].offsets)
    || (d.superclass.Some? && Satisfies(d.superclass.value, iface))
  }

  ghost predicate InterfacesRegistered(env: map<string, InterfaceDef>, d: ClassDef) {
    (forall i | i in d.implemented :: Registered(env, i))
    && (d.superclass.Some? ==> InterfacesRegistered(env, d.superclass.value))
  }

  predicate HasMethod(d: ClassDef, m: InterfaceMethod) {
    exists i | 0 <= i < |d.methods| :: d.methods[i].name == m.name && SameShape(d.methods[i].sig, m.sig)
  }

  lemma ImplementedMethod(d: ClassDef, i: nat, m: InterfaceMethod)
    requires FinishedClass(d) && i < |d.implemented| && Provides(d.implemented[i].methods, m)
    ensures HasMethod(d, m)
  {
    var j := d.implemented[i];
    var k :| 0 <= k < |j.methods| && j.methods[k].name == m.name && SameSig(j.methods[k].sig, m.sig);
    assert Implements(d.methods, d.implemented[i].methods[k]);
    var slot := FindSlot(d.methods, m.name).value;
    SameShapeIsEquivalence(d.methods[slot].sig, j.methods[k].sig, m.sig);
    assert d.methods[slot].name == m.name;
  }

  lemma InheritedMethod(d: ClassDef, m: InterfaceMethod)
    requires FinishedClass(d) && d.superclass.Some? && HasMethod(d.superclass.value, m)
    ensures HasMethod(d, m)
  {
    var base := d.superclass.value;
    VtableIsLookup(d);
    var i :| 0 <= i < |base.methods| && base.methods[i].name == m.name && SameShape(base.methods[i].sig, m.sig);
    SameShapeIsEquivalence(d.methods[i].sig, base.methods[i].sig, m.sig);
    assert d.methods[i].name == m.name;
  }

  /** Whatever the interface table says: a class that satisfies a name implements, directly
      or through a base or a superclass, a definition of that name, and has its methods. */
  lemma {:induction false} SatisfiedDefinition(d: ClassDef, iface: string) returns (b: InterfaceDef)
    requires FinishedClass(d) && Satisfies(d, iface)
    ensures b.name == iface && Finished(b) && forall m | m in b.methods :: HasMethod(d, m)
    decreases d
  {
    hide Complies;
    if i :| 0 <= i < |d.implemented| && (d.implemented[i].name == iface || iface in d.implemented[i].offsets) {
      var j := d.implemented[i];
      assert Finished(j);
      FinishedTable(j);
      b := NamedBase(j, iface);
      forall m | m in b.methods ensures HasMethod(d, m) { ImplementedMethod(d, i, m); }
    } else {
      b := SatisfiedDefinition(d.superclass.value, iface);
      forall m | m in b.methods ensures HasMethod(d, m) { InheritedMethod(d, m); }
    }
  }

  /** A class that satisfies an interface through superclasses and base interfaces has
      every method of that interface with equal parameter and return types. */
  lemma {:induction false} SatisfyingClassConforms(env: map<string, InterfaceDef>, d: ClassDef, iface: string,
                                                   m: InterfaceMethod)
    requires FinishedClass(d) && InterfacesRegistered(env, d) && Satisfies(d, iface)
    requires iface in env && m in env[iface].methods
    ensures HasMethod(d, m)
    decreases d
  {
    if i :| 0 <= i < |d.implemented| && (d.implemented[i].name == iface || iface in d.implemented[i].offsets) {
      var j := d.implemented[i];
      assert Finished(j) && Registered(env, j);
      FinishedTable(j);
      BaseMethodsProvided(env, j, iface, m);
      ImplementedMethod(d, i, m);
    } else {
      SatisfyingClassConforms(env, d.superclass.value, iface, m);
      InheritedMethod(d, m);
    }
  }
}
