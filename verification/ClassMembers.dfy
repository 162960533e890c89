/** What a class declaration comes to: its fields in order, and exactly when it is in order. */
module ClassMembers {
  import opened Common
  import opened Types
  import opened Interfaces
  import opened Classes

  predicate IsInstanceField(m: Member) {
    m.FieldM? && !m.isStatic
  }

  /** Static fields and methods share one name space. */
  predicate IsShared(m: Member) {
    (m.FieldM? && m.isStatic) || m.MethodM?
  }

  /** The declared instance fields, in declaration order. */
  function InstanceFields(ms: seq<Member>): (r: seq<Member>)
    ensures forall m | m in r :: m in ms && IsInstanceField(m)
    ensures forall m | m in ms && IsInstanceField(m) :: m in r
  {
    if ms == [] then []
    else (if IsInstanceField(ms[0]) then [ms[0]] else []) + InstanceFields(ms[1..])
  }

  predicate Clash(a: Member, b: Member) {
    (a.ConstructorM? && b.ConstructorM?)
    || (IsInstanceField(a) && IsInstanceField(b) && a.name == b.name)
    || (IsShared(a) && IsShared(b) && a.name == b.name)
  }

  predicate MemberOk(m: Member, abstractClass: bool) {
    match m
    case ConstructorM(_) => true
    case FieldM(_, ty, isStatic, hasInitializer) => ty.Some? && (hasInitializer ==> isStatic)
    case MethodM(_, _, isStatic, isAbstract, _, isGeneric, typeParamsValid) =>
      if isGeneric then typeParamsValid else isAbstract ==> abstractClass && !isStatic
  }

  /** Each member is in order by itself, and no two get in each other's way. */
  predicate MembersOk(ms: seq<Member>, abstractClass: bool) {
    (forall i | 0 <= i < |ms| :: MemberOk(ms[i], abstractClass))
    && forall i, j | 0 <= i < j < |ms| :: !Clash(ms[i], ms[j])
  }

  predicate NoneTaken(ms: seq<Member>, s: Scan) {
    forall i | 0 <= i < |ms| :: !Taken(ms[i], s)
  }

  predicate Taken(m: Member, s: Scan) {
    if m.ConstructorM? then s.ctor.Some?
    else if IsInstanceField(m) then m.name in s.fieldNames
    else m.name in s.staticNames + s.methodNames
  }

  lemma MembersOkFront(ms: seq<Member>, abstractClass: bool)
    requires ms != []
    ensures MembersOk(ms, abstractClass) <==>
      MemberOk(ms[0], abstractClass) && MembersOk(ms[1..], abstractClass)
      && forall j | 0 <= j < |ms[1..]| :: !Clash(ms[0], ms[1..][j])
  {
    hide MemberOk, Clash;
    var rest := ms[1..];
    assert forall j | 0 <= j < |rest| :: rest[j] == ms[j + 1];
    assert forall i | 0 < i < |ms| :: ms[i] == rest[i - 1];
  }

  lemma TakenNext(s: Scan, m: Member, later: Member, cls: string, abstractClass: bool)
    ensures Taken(later, ScanMember(s, m, cls, abstractClass)) <==> Taken(later, s) || Clash(m, later)
  {
  }

  lemma ScanMemberOk(s: Scan, m: Member, cls: string, abstractClass: bool)
    ensures ScanMember(s, m, cls, abstractClass).ok <==> s.ok && !Taken(m, s) && MemberOk(m, abstractClass)
  {
  }

  /** Reading the members succeeds exactly when they are in order and meet nothing that
      was there before. */
  lemma {:induction false} ScanOkIff(s: Scan, ms: seq<Member>, cls: string, abstractClass: bool)
    ensures ScanMembers(s, ms, cls, abstractClass).ok <==> s.ok && MembersOk(ms, abstractClass) && NoneTaken(ms, s)
    decreases |ms|
  {
    hide ScanMember, MemberOk, Clash, Taken, MembersOk;
    if ms == [] {
      assert MembersOk([], abstractClass) by { NoMembersOk(abstractClass); }
    } else {
      var next, rest := ScanMember(s, ms[0], cls, abstractClass), ms[1..];
      ScanOkIff(next, rest, cls, abstractClass);
      ScanMemberOk(s, ms[0], cls, abstractClass);
      MembersOkFront(ms, abstractClass);
      forall j | 0 <= j < |rest| ensures Taken(rest[j], next) <==> Taken(rest[j], s) || Clash(ms[0], rest[j]) {
        TakenNext(s, ms[0], rest[j], cls, abstractClass);
      }
      assert NoneTaken(ms, s) <==> !Taken(ms[0], s) && NoneTaken(rest, s) by { NoneTakenFront(ms, s); }
    }
  }

  lemma NoMembersOk(abstractClass: bool)
    ensures MembersOk([], abstractClass)
  {
  }

  lemma NoneTakenFront(ms: seq<Member>, s: Scan)
    requires ms != []
    ensures NoneTaken(ms, s) <==> !Taken(ms[0], s) && NoneTaken(ms[1..], s)
  {
    hide Taken;
    assert forall j | 0 <= j < |ms[1..]| :: ms[1..][j] == ms[j + 1];
    if !Taken(ms[0], s) && NoneTaken(ms[1..], s) {
      assert forall i | 0 < i < |ms| :: ms[i] == ms[1..][i - 1];
    }
  }

  /* ---------- Fields ---------- */

  /** `f` is the field that the member declares in class `cls`. */
  predicate IsField(f: ClassField, m: Member, cls: string) {
    m.FieldM? && f.name == m.name && m.ty == Some(f.ty) && f.declaringClass == cls
  }

  /** The inherited fields, and then exactly the declared ones in their order. */
  predicate FieldsLaidOut(fs: seq<ClassField>, inherited: seq<ClassField>, own: seq<Member>, cls: string) {
    |fs| == |inherited| + |own| && inherited <= fs
    && forall k | 0 <= k < |own| :: IsField(fs[|inherited| + k], own[k], cls)
  }

  lemma {:induction false} ScannedFields(s: Scan, ms: seq<Member>, cls: string, abstractClass: bool)
    requires ScanMembers(s, ms, cls, abstractClass).ok
    ensures FieldsLaidOut(ScanMembers(s, ms, cls, abstractClass).fields, s.fields, InstanceFields(ms), cls)
    decreases |ms|
  {
    hide MemberOk, Clash, Taken, IsField, MembersOk, NoneTaken, ScanMember;
    if ms != [] {
      var next := ScanMember(s, ms[0], cls, abstractClass);
      ScannedFields(next, ms[1..], cls, abstractClass);
      ScanOkIff(next, ms[1..], cls, abstractClass);
      ScannedField(s, ms[0], cls, abstractClass);
      if IsInstanceField(ms[0]) {
        var fs := ScanMembers(s, ms, cls, abstractClass).fields;
        LaidOutFront(fs, s.fields, next.fields[|s.fields|], ms[0], InstanceFields(ms[1..]), cls);
      }
    }
  }

  lemma ScannedField(s: Scan, m: Member, cls: string, abstractClass: bool)
    requires ScanMember(s, m, cls, abstractClass).ok
    ensures var r := ScanMember(s, m, cls, abstractClass).fields;
      if IsInstanceField(m) then |r| == |s.fields| + 1 && r == s.fields + [r[|s.fields|]] && IsField(r[|s.fields|], m, cls)
      else r == s.fields
  {
  }

  lemma LaidOutFront(fs: seq<ClassField>, inherited: seq<ClassField>, f: ClassField, m: Member, rest: seq<Member>, cls: string)
    requires FieldsLaidOut(fs, inherited + [f], rest, cls) && IsField(f, m, cls)
    ensures FieldsLaidOut(fs, inherited, [m] + rest, cls)
  {
    hide IsField;
    var own := [m] + rest;
    assert fs[|inherited|] == (inherited + [f])[|inherited|];
    forall k | 0 <= k < |own| ensures IsField(fs[|inherited| + k], own[k], cls) {
      if k > 0 {
        assert own[k] == rest[k - 1];
        assert IsField(fs[|inherited + [f]| + (k - 1)], rest[k - 1], cls);
      }
    }
  }

  function Inherited(d: ClassDef): seq<ClassField> {
    if d.superclass.Some? then d.superclass.value.fields else []
  }

  /** The fields of a class are those of its superclass and then its declared instance
      fields in order, each with its name and type, and declared by this class. */
  lemma FieldLayout(d: ClassDef)
    requires FinishedClass(d)
    ensures FieldsLaidOut(d.fields, Inherited(d), InstanceFields(d.decl.members), d.name)
  {
    hide ScanOf, VtableOf, Complies, ConstructorOk, FieldsLaidOut;
    FinishedClassFields(d);
    ScanOfFields(d.name, d.decl, d.superclass);
    ScanOfFacts(d.name, d.decl, d.superclass) by { if d.superclass.Some? { FinishedClassFields(d.superclass.value); } }
    ReindexOfIndexed(ScanOf(d.name, d.decl, d.superclass).fields);
  }

  lemma ScanOfFields(name: string, decl: ClassDecl, base: Option<ClassDef>)
    requires ScanOf(name, decl, base).ok
    ensures FieldsLaidOut(ScanOf(name, decl, base).fields, StartScan(base).fields, InstanceFields(decl.members), name)
  {
    ScannedFields(StartScan(base), decl.members, name, decl.isAbstract);
  }

  predicate DeclaresField(d: ClassDef, name: string) {
    exists m | m in d.decl.members :: IsInstanceField(m) && m.name == name
  }

  /** The class on the superclass chain that declares the instance field. */
  function FieldOwner(d: ClassDef, name: string): Option<ClassDef>
    decreases d
  {
    if DeclaresField(d, name) then Some(d)
    else if d.superclass.Some? then FieldOwner(d.superclass.value, name)
    else None
  }

  predicate Named(fs: seq<ClassField>, name: string) {
    exists i | 0 <= i < |fs| :: fs[i].name == name
  }

  predicate HasField(fs: seq<ClassField>, name: string, owner: string) {
    exists i | 0 <= i < |fs| :: fs[i].name == name && fs[i].declaringClass == owner
  }

  lemma DeclaredLaidOut(fs: seq<ClassField>, inherited: seq<ClassField>, own: seq<Member>, cls: string, m: Member)
    requires FieldsLaidOut(fs, inherited, own, cls) && m in own && m.FieldM?
    ensures HasField(fs, m.name, cls) && Named(fs, m.name)
  {
    var k :| 0 <= k < |own| && own[k] == m;
    assert IsField(fs[|inherited| + k], own[k], cls);
  }

  lemma InheritedLaidOut(fs: seq<ClassField>, inherited: seq<ClassField>, own: seq<Member>, cls: string, name: string)
    requires FieldsLaidOut(fs, inherited, own, cls) && forall m | m in own && m.FieldM? :: m.name != name
    ensures Named(fs, name) <==> Named(inherited, name)
    ensures forall owner | HasField(inherited, name, owner) :: HasField(fs, name, owner)
  {
    assert forall i | |inherited| <= i < |fs| :: IsField(fs[i], own[i - |inherited|], cls) && own[i - |inherited|] in own;
    assert forall i | 0 <= i < |inherited| :: fs[i] == inherited[i];
  }

  /** Field layout refines lookup up the superclass chain, as vtable layout does: a field is
      in the layout if and only if a class on the chain declares it, and as that class's. */
  lemma {:induction false} FieldLayoutIsLookup(d: ClassDef, name: string)
    requires FinishedClass(d)
    ensures FieldOwner(d, name).Some? <==> Named(d.fields, name)
    ensures FieldOwner(d, name).Some? ==> HasField(d.fields, name, FieldOwner(d, name).value.name)
    decreases d
  {
    hide FinishedClass, FieldsLaidOut, Named, HasField;
    FieldLayout(d);
    var own := InstanceFields(d.decl.members);
    if DeclaresField(d, name) {
      var m :| m in d.decl.members && IsInstanceField(m) && m.name == name;
      DeclaredLaidOut(d.fields, Inherited(d), own, d.name, m);
    } else {
      InheritedLaidOut(d.fields, Inherited(d), own, d.name, name);
      if d.superclass.Some? {
        SuperclassFinished(d);
        FieldLayoutIsLookup(d.superclass.value, name);
      } else {
        NothingNamed(name);
      }
    }
  }

  lemma NothingNamed(name: string)
    ensures !Named([], name)
  {
  }

  lemma SuperclassFinished(d: ClassDef)
    requires FinishedClass(d) && d.superclass.Some?
    ensures FinishedClass(d.superclass.value)
  {
    hide LayoutOk, LayoutClass, Finished;
  }

  /* ---------- Constructors ---------- */

  function DeclaredConstructor(ms: seq<Member>): Option<seq<Option<Type>>> {
    if ms == [] then None
    else if ms[0].ConstructorM? then Some(ms[0].params)
    else DeclaredConstructor(ms[1..])
  }

  lemma {:induction false} ScannedConstructor(s: Scan, ms: seq<Member>, cls: string, abstractClass: bool)
    ensures ScanMembers(s, ms, cls, abstractClass).ctor == if s.ctor.Some? then s.ctor else DeclaredConstructor(ms)
    decreases |ms|
  {
    hide ScanField, ScanMethod;
    if ms != [] {
      ScanMemberConstructor(s, ms[0], cls, abstractClass);
      ScannedConstructor(ScanMember(s, ms[0], cls, abstractClass), ms[1..], cls, abstractClass);
    }
  }

  lemma ScanMemberConstructor(s: Scan, m: Member, cls: string, abstractClass: bool)
    ensures ScanMember(s, m, cls, abstractClass).ctor ==
      if s.ctor.None? && m.ConstructorM? then Some(m.params) else s.ctor
  {
  }

  predicate AllResolved(params: seq<Option<Type>>) {
    forall i | 0 <= i < |params| :: params[i].Some?
  }

  lemma {:induction false} ResolvedParamsFacts(params: seq<Option<Type>>)
    requires AllResolved(params)
    ensures |ResolvedParams(params)| == |params|
    ensures forall i | 0 <= i < |params| :: params[i] == Some(ResolvedParams(params)[i])
  {
    if params != [] { ResolvedParamsFacts(params[1..]); }
  }

  /** A declared constructor has its parameters; without one a class is constructed from
      nothing, and so is its superclass. */
  lemma ConstructorLayout(d: ClassDef)
    requires FinishedClass(d)
    ensures match DeclaredConstructor(d.decl.members)
      case Some(params) =>
        |d.constructorParams| == |params| && forall i | 0 <= i < |params| :: params[i] == Some(d.constructorParams[i])
      case None =>
        d.constructorParams == [] && (d.superclass.Some? ==> d.superclass.value.constructorParams == [])
  {
    hide VtableOf, Complies, Finished;
    ScannedConstructor(StartScan(d.superclass), d.decl.members, d.name, d.decl.isAbstract);
    var ctor := DeclaredConstructor(d.decl.members);
    if ctor.Some? { ResolvedParamsFacts(ctor.value); }
  }

  /* ---------- When a declaration is in order ---------- */

  function BaseMethods(d: ClassDef): seq<ClassMethod> {
    if d.superclass.Some? then d.superclass.value.methods else []
  }

  /** The signature resolves, and is that of the inherited method of the name. */
  predicate Overrides(ms: seq<ClassMethod>, m: Member)
    requires m.MethodM?
  {
    m.sig.Some?
    && (!m.isStatic ==> forall i | 0 <= i < |ms| && ms[i].name == m.name :: SameShape(ms[i].sig, m.sig.value))
  }

  predicate AllOverride(ms: seq<ClassMethod>, own: seq<Member>)
    requires forall m | m in own :: m.MethodM?
  {
    forall i | 0 <= i < |own| :: Overrides(ms, own[i])
  }

  lemma PlaceMethodOk(t: Vtable, m: Member, cls: string)
    requires m.MethodM? && WellSlotted(t.methods)
    ensures PlaceMethod(t, m, cls).ok <==> t.ok && Overrides(t.methods, m)
    ensures PlaceMethod(t, m, cls).ok ==> WellSlotted(PlaceMethod(t, m, cls).methods)
  {
    if PlaceMethod(t, m, cls).ok { PlaceMethodFacts(t, m, cls); }
  }

  lemma OthersUnplaced(t: Vtable, m: Member, later: Member, cls: string)
    requires m.MethodM? && later.MethodM? && m.name != later.name
    ensures Overrides(PlaceMethod(t, m, cls).methods, later) <==> Overrides(t.methods, later)
  {
    var placed := PlaceMethod(t, m, cls).methods;
    if later.sig.Some?
       && forall i | 0 <= i < |placed| && placed[i].name == later.name :: SameShape(placed[i].sig, later.sig.value) {
      assert forall i | 0 <= i < |t.methods| && t.methods[i].name == later.name :: placed[i] == t.methods[i];
    }
  }

  lemma {:induction false} PlaceOkIff(t: Vtable, own: seq<Member>, cls: string)
    requires WellSlotted(t.methods) && OwnNamesDistinct(own) && forall m | m in own :: m.MethodM?
    ensures PlaceMethods(t, own, cls).ok <==> t.ok && AllOverride(t.methods, own)
    decreases |own|
  {
    hide Overrides, WellSlotted, PlaceMethod;
    if own != [] {
      var next, rest := PlaceMethod(t, own[0], cls), own[1..];
      assert forall j | 0 <= j < |rest| :: rest[j] == own[j + 1];
      assert forall i | 0 < i < |own| :: own[i] == rest[i - 1];
      PlaceMethodOk(t, own[0], cls);
      if next.ok {
        PlaceOkIff(next, rest, cls);
        forall j | 0 <= j < |rest| ensures Overrides(next.methods, rest[j]) <==> Overrides(t.methods, rest[j]) {
          OthersUnplaced(t, own[0], rest[j], cls);
        }
      } else if PlaceMethods(t, own, cls).ok {
        PlacedOk(next, rest, cls);
      }
    }
  }

  /** What lookup up the chain finds for the name is public and has the signature. */
  predicate Answers(d: ClassDef, req: InterfaceMethod) {
    var up := LookupUp(d, req.name);
    up.Some? && up.value.1.MethodM? && up.value.1.sig.Some? && up.value.1.isPublic
    && SameSig(up.value.1.sig.value, req.sig)
  }

  /** The methods are complete: none is left abstract in a concrete class, and every
      implemented interface finds its own. */
  ghost predicate MethodsComplete(d: ClassDef) {
    (!d.decl.isAbstract ==>
       forall n | LookupUp(d, n).Some? :: LookupUp(d, n).value.1.MethodM? && !LookupUp(d, n).value.1.isAbstract)
    && forall i, j | 0 <= i < |d.implemented| && 0 <= j < |d.implemented[i].methods| ::
         Answers(d, d.implemented[i].methods[j])
  }

  predicate ConstructorsOk(d: ClassDef) {
    match DeclaredConstructor(d.decl.members)
    case Some(params) => AllResolved(params)
    case None => d.superclass.Some? ==> d.superclass.value.constructorParams == []
  }

  /** The declaration is in order, in terms of what it and its superclasses declare. */
  ghost predicate InOrder(d: ClassDef) {
    MembersOk(d.decl.members, d.decl.isAbstract)
    && (forall m, i | m in InstanceFields(d.decl.members) && 0 <= i < |Inherited(d)| :: Inherited(d)[i].name != m.name)
    && (forall m | m in OwnMethods(d.decl.members) :: m.MethodM? && Overrides(BaseMethods(d), m))
    && MethodsComplete(d) && ConstructorsOk(d)
  }

  lemma MembersReadIff(d: ClassDef)
    requires d.superclass.Some? ==> FinishedClass(d.superclass.value)
    ensures ScanOf(d.name, d.decl, d.superclass).ok <==>
      MembersOk(d.decl.members, d.decl.isAbstract)
      && forall m, i | m in InstanceFields(d.decl.members) && 0 <= i < |Inherited(d)| :: Inherited(d)[i].name != m.name
  {
    hide MembersOk, FinishedClass;
    var start, ms := StartScan(d.superclass), d.decl.members;
    ScanOkIff(start, ms, d.name, d.decl.isAbstract);
    assert start.fieldNames == FieldNames(Inherited(d));
    if NoneTaken(ms, start) {
      forall m, i | m in InstanceFields(ms) && 0 <= i < |Inherited(d)| ensures Inherited(d)[i].name != m.name {
        var k :| 0 <= k < |ms| && ms[k] == m;
        assert !Taken(ms[k], start);
      }
    } else {
      var k :| 0 <= k < |ms| && Taken(ms[k], start);
      assert ms[k] in InstanceFields(ms);
    }
  }

  /** With its members read and its methods placed, a class has in each slot what lookup
      finds, as a finished class has. */
  lemma PlacedIsLookup(d: ClassDef)
    requires d.superclass.Some? ==> FinishedClass(d.superclass.value)
    requires ScanOf(d.name, d.decl, d.superclass).ok && VtableOf(d.name, d.decl, d.superclass).ok
    requires d.methods == VtableOf(d.name, d.decl, d.superclass).methods
    ensures WellSlotted(d.methods)
    ensures forall n :: LookupUp(d, n).Some? <==> FindSlot(d.methods, n).Some?
    ensures forall i | 0 <= i < |d.methods| ::
        var up := LookupUp(d, d.methods[i].name);
        up.Some? && IsEntry(d.methods[i], up.value.1, up.value.0)
  {
    hide FinishedClass, ScanOf;
    var base, own := BaseMethods(d), OwnMethods(d.decl.members);
    if d.superclass.Some? {
      VtableIsLookup(d.superclass.value);
      FinishedClassFields(d.superclass.value);
    }
    ScanOfFacts(d.name, d.decl, d.superclass);
    PlaceMethodsFacts(Vtable(base, true), own, d.name);
    forall n ensures LookupUp(d, n).Some? <==> FindSlot(d.methods, n).Some? {
      LookupIffSlot(d, own, base, n);
    }
  }

  lemma MethodsCompleteIff(d: ClassDef)
    requires WellSlotted(d.methods)
    requires forall n :: LookupUp(d, n).Some? <==> FindSlot(d.methods, n).Some?
    requires forall i | 0 <= i < |d.methods| ::
        var up := LookupUp(d, d.methods[i].name);
        up.Some? && IsEntry(d.methods[i], up.value.1, up.value.0)
    ensures MethodsComplete(d) <==>
      (!d.decl.isAbstract ==> forall i | 0 <= i < |d.methods| :: !d.methods[i].isAbstract)
      && Complies(d.methods, d.implemented)
  {
    hide LookupUp, SameSig;
    forall req ensures Answers(d, req) <==> Implements(d.methods, req) {
      var slot := FindSlot(d.methods, req.name);
      if slot.Some? { assert d.methods[slot.value].name == req.name; }
    }
    forall n | LookupUp(d, n).Some? ensures exists i | 0 <= i < |d.methods| :: d.methods[i].name == n {
      assert d.methods[FindSlot(d.methods, n).value].name == n;
    }
  }

  /** A class passes all checks of the layout exactly when its declaration is in order. */
  lemma LayoutOkIff(name: string, decl: ClassDecl, base: Option<ClassDef>, ifaces: seq<InterfaceDef>)
    requires base.Some? ==> FinishedClass(base.value)
    ensures LayoutOk(name, decl, base, ifaces) <==> InOrder(LayoutClass(name, decl, base, ifaces))
  {
    hide ScanOf, VtableOf, FinishedClass, MembersOk, MethodsComplete, Complies, Overrides, WellSlotted;
    var d := LayoutClass(name, decl, base, ifaces);
    MembersReadIff(d);
    if ScanOf(name, decl, base).ok {
      MethodsPlacedIff(d);
      LaidOutConstructor(d);
      if VtableOf(name, decl, base).ok {
        PlacedIsLookup(d);
        MethodsCompleteIff(d);
      }
    }
  }

  lemma MethodsPlacedIff(d: ClassDef)
    requires d.superclass.Some? ==> FinishedClass(d.superclass.value)
    requires ScanOf(d.name, d.decl, d.superclass).ok
    ensures VtableOf(d.name, d.decl, d.superclass).ok <==>
      forall m | m in OwnMethods(d.decl.members) :: m.MethodM? && Overrides(BaseMethods(d), m)
  {
    hide FinishedClass, ScanOf, Overrides;
    if d.superclass.Some? {
      VtableIsLookup(d.superclass.value);
      FinishedClassFields(d.superclass.value);
    }
    ScanOfFacts(d.name, d.decl, d.superclass);
    PlaceOkIff(Vtable(BaseMethods(d), true), OwnMethods(d.decl.members), d.name);
  }

  lemma LaidOutConstructor(d: ClassDef)
    ensures ConstructorOk(ScanOf(d.name, d.decl, d.superclass).ctor, d.superclass) <==> ConstructorsOk(d)
  {
    ScannedConstructor(StartScan(d.superclass), d.decl.members, d.name, d.decl.isAbstract);
  }
}
