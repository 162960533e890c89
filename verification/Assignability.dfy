/** What types mean, and what assignability promises about meanings. */
module Assignability {
  import opened Common
  import opened Types
  import opened Interfaces
  import opened Classes
  import opened ClassCollection

  /* ---------- Run-time values and the meaning of types ---------- */

  datatype Settled = Pending | DoneVoid | DoneWith(v: Value)

  /** `VUnset` is what a zeroed slot holds when zero bits are no value of its type. */
  datatype Value =
    | VNull
    | VUnset
    | VBool(b: bool)
    | VString(s: string)
    | VScalar(prim: string, n: int)
    | VArray(items: seq<Value>)
    | VTuple(items: seq<Value>)
    | VRecord(entries: map<string, Value>)
    | VInstance(cls: string)
    | VNominal(kind: NominalKind, name: string)
    | VFunction(sig: Type)
    | VFuture(state: Settled)
    | VPointer(sig: Type)
    | VFixed(sig: Type)
    | VOpaque(param: string)

  /** The class and interface tables by mangled name. */
  datatype Env = Env(classes: map<string, ClassDef>, interfaces: map<string, InterfaceDef>)

  predicate OnChain(d: ClassDef, name: string)
    decreases d
  {
    d.name == name || (d.superclass.Some? && OnChain(d.superclass.value, name))
  }

  predicate InstanceOf(env: Env, v: Value, name: string) {
    v.VInstance? && v.cls in env.classes && OnChain(env.classes[v.cls], name)
  }

  predicate InstanceSatisfies(env: Env, v: Value, iface: string) {
    v.VInstance? && v.cls in env.classes && Satisfies(env.classes[v.cls], iface)
  }

  /** `v` is a value of type `t`. Fields of an object type that also has an index
      signature must fit both; maps and objects share one run-time representation. */
  predicate HasType(env: Env, v: Value, t: Type)
    decreases v, t, 1
  {
    match t
    case Prim(p) =>
      if p == "null" then v.VNull?
      else if p == "string" then v.VString?
      else if p == "bool" then v.VBool?
      else v.VScalar? && v.prim == p
    case LiteralT(LString(s)) => v == VString(s)
    case LiteralT(LNumber(n)) => v == VScalar("i32", n)
    case ArrayT(e) => v.VArray? && forall i | 0 <= i < |v.items| :: HasType(env, v.items[i], e)
    case TupleT(es) =>
      v.VTuple? && |v.items| == |es| && forall i | 0 <= i < |es| :: HasType(env, v.items[i], es[i])
    case UnionT(arms) => exists i | 0 <= i < |arms| :: HasType(env, v, arms[i])
    case InterT(arms) => forall i | 0 <= i < |arms| :: HasType(env, v, arms[i])
    case ObjectT(_, fs, ix) =>
      v.VRecord? && FieldsFit(env, v, fs) && (ix.Present? ==> EntriesHaveType(env, v, ix.ty))
    case MapT(e) => EntriesHaveType(env, v, e)
    case FunctionT(_, _, _) => v.VFunction? && TypesEqual(v.sig, t)
    case FutureT(inner) =>
      v.VFuture?
      && (match v.state
          case Pending => true
          case DoneVoid => inner.Absent?
          case DoneWith(x) => inner.Present? && HasType(env, x, inner.ty))
    case PtrT(_) => v.VNull? || (v.VPointer? && TypesEqual(v.sig, t))
    case FnPtrT(_, _) => v.VPointer? && TypesEqual(v.sig, t)
    case FixedArrayT(_, _) => v.VFixed? && TypesEqual(v.sig, t)
    case TypeParamT(n, _) => v == VOpaque(n)
    case NominalT(ClassKind, n) => InstanceOf(env, v, n)
    case NominalT(InterfaceKind, n) =>
      InstanceSatisfies(env, v, n)
      || (n in env.interfaces && env.interfaces[n].index.Present?
          && v.VRecord? && forall k | k in v.entries :: HasType(env, v.entries[k], env.interfaces[n].index.ty))
    case NominalT(k, n) => v == VNominal(k, n)
  }

  predicate EntriesHaveType(env: Env, v: Value, t: Type)
    decreases v, t, 0
  {
    v.VRecord? && forall k | k in v.entries :: HasType(env, v.entries[k], t)
  }

  lemma {:induction false} EqualTypesSameValues(env: Env, v: Value, a: Type, b: Type)
    requires TypesEqual(a, b)
    ensures HasType(env, v, a) <==> HasType(env, v, b)
    decreases v, a, 2
  {
    hide InstanceOf, InstanceSatisfies;
    if a.UnionT? || a.InterT? {
      EqualListsSameValues(env, v, a.arms, b.arms);
    } else if a.ArrayT? || a.TupleT? || a.ObjectT? || a.MapT? || a.FutureT? {
      EqualStructuresSameValues(env, v, a, b);
    } else {
      EqualLeavesSameValues(env, v, a, b);
    }
  }

  lemma EqualLeavesSameValues(env: Env, v: Value, a: Type, b: Type)
    requires TypesEqual(a, b)
    requires !a.UnionT? && !a.InterT? && !a.ArrayT? && !a.TupleT? && !a.ObjectT? && !a.MapT? && !a.FutureT?
    ensures HasType(env, v, a) <==> HasType(env, v, b)
  {
    hide InstanceOf, InstanceSatisfies;
    if v.VFunction? || v.VPointer? || v.VFixed? { EqualToEither(v.sig, a, b); }
  }

  lemma {:induction false} EqualStructuresSameValues(env: Env, v: Value, a: Type, b: Type)
    requires TypesEqual(a, b) && (a.ArrayT? || a.TupleT? || a.ObjectT? || a.MapT? || a.FutureT?)
    ensures HasType(env, v, a) <==> HasType(env, v, b)
    decreases v, a, 1
  {
    hide InstanceOf, InstanceSatisfies, FieldsEqual, FieldsFit, EntriesHaveType;
    match a
    case ArrayT(x) =>
      if v.VArray? {
        forall i | 0 <= i < |v.items| ensures HasType(env, v.items[i], x) <==> HasType(env, v.items[i], b.element) {
          EqualTypesSameValues(env, v.items[i], x, b.element);
        }
      }
    case TupleT(xs) =>
      if v.VTuple? && |v.items| == |xs| {
        forall i | 0 <= i < |xs| ensures HasType(env, v.items[i], xs[i]) <==> HasType(env, v.items[i], b.elements[i]) {
          EqualTypesSameValues(env, v.items[i], xs[i], b.elements[i]);
        }
      }
    case ObjectT(_, fs, ix) =>
      EqualFieldsSameValues(env, v, fs, b.fields);
      if ix.Present? { EqualTypesSameEntries(env, v, ix.ty, b.index.ty); }
    case MapT(x) => EqualTypesSameEntries(env, v, x, b.valueType);
    case FutureT(inner) =>
      if v.VFuture? && v.state.DoneWith? && inner.Present? {
        EqualTypesSameValues(env, v.state.v, inner.ty, b.inner.ty);
      }
  }

  lemma EqualToEither(t: Type, a: Type, b: Type)
    requires TypesEqual(a, b)
    ensures TypesEqual(t, a) <==> TypesEqual(t, b)
  {
    EqualIffErased(a, b);
    EqualIffErased(t, a);
    EqualIffErased(t, b);
  }

  lemma {:induction false} EqualListsSameValues(env: Env, v: Value, xs: seq<Type>, ys: seq<Type>)
    requires ListsEqual(xs, ys)
    ensures |xs| == |ys| && forall i | 0 <= i < |xs| :: HasType(env, v, xs[i]) <==> HasType(env, v, ys[i])
    decreases v, xs, 0
  {
    forall i | 0 <= i < |xs| ensures HasType(env, v, xs[i]) <==> HasType(env, v, ys[i]) {
      EqualTypesSameValues(env, v, xs[i], ys[i]);
    }
  }

  predicate FieldsFit(env: Env, v: Value, fs: seq<Field>)
    requires v.VRecord?
    decreases v, fs, 0
  {
    forall i | 0 <= i < |fs| :: fs[i].name in v.entries && HasType(env, v.entries[fs[i].name], fs[i].ty)
  }

  lemma {:induction false} EqualFieldsSameValues(env: Env, v: Value, fs: seq<Field>, gs: seq<Field>)
    requires FieldsEqual(fs, gs)
    ensures v.VRecord? ==> (FieldsFit(env, v, fs) <==> FieldsFit(env, v, gs))
    decreases v, fs, 0
  {
    if v.VRecord? {
      forall i | 0 <= i < |fs| && fs[i].name in v.entries
        ensures HasType(env, v.entries[fs[i].name], fs[i].ty) <==> HasType(env, v.entries[fs[i].name], gs[i].ty)
      {
        EqualTypesSameValues(env, v.entries[fs[i].name], fs[i].ty, gs[i].ty);
      }
    }
  }

  lemma {:induction false} EqualTypesSameEntries(env: Env, v: Value, a: Type, b: Type)
    requires TypesEqual(a, b)
    ensures EntriesHaveType(env, v, a) <==> EntriesHaveType(env, v, b)
    decreases v, a, 0
  {
    hide HasType, TypesEqual;
    if v.VRecord? {
      forall k | k in v.entries ensures HasType(env, v.entries[k], a) <==> HasType(env, v.entries[k], b) {
        EqualTypesSameValues(env, v.entries[k], a, b);
      }
    }
  }

  /* ---------- Assignability ---------- */

  function LiteralBase(lit: LiteralValue): Type {
    if lit.LString? then Prim("string") else Prim("i32")
  }

  /** baseIsAssignable without its map case: equality, class chains and interfaces. */
  predicate NominalAssignable(env: Env, from: Type, to: Type) {
    TypesEqual(from, to)
    || (from.NominalT? && to.NominalT? && from.kind == ClassKind && to.kind == ClassKind
        && from.name in env.classes && OnChain(env.classes[from.name], to.name))
    || (from.NominalT? && to.NominalT? && from.kind == ClassKind && to.kind == InterfaceKind
        && from.name in env.classes && to.name in env.interfaces && Satisfies(env.classes[from.name], to.name))
    || (from.NominalT? && to.NominalT? && from.kind == InterfaceKind && to.kind == InterfaceKind
        && from.name in env.interfaces && to.name in env.interfaces[from.name].offsets)
  }

  predicate BaseAssignable(env: Env, from: Type, to: Type)
    decreases from, to, 0
  {
    NominalAssignable(env, from, to)
    || (from.MapT? && to.NominalT? && to.kind == InterfaceKind && to.name in env.interfaces
        && env.interfaces[to.name].index.Present?
        && IsAssignable(env, from.valueType, env.interfaces[to.name].index.ty))
  }

  /** advancedIsAssignable with baseIsAssignable. The base check of a literal's base
      type needs no map case, since that base is a primitive. */
  predicate IsAssignable(env: Env, from: Type, to: Type)
    decreases from, to, 1
  {
    if TypesEqual(from, to) then true
    else if from == NULL_TYPE then
      to.PtrT? || (to.UnionT? && exists i | 0 <= i < |to.arms| :: IsAssignable(env, from, to.arms[i]))
    else if from.LiteralT? && NominalAssignable(env, LiteralBase(from.value), to) then true
    else if from.LiteralT? && to.UnionT? then
      exists i | 0 <= i < |to.arms| :: IsAssignable(env, from, to.arms[i])
    else if from.LiteralT? && to.LiteralT? then from.value == to.value
    else if from.UnionT? then forall i | 0 <= i < |from.arms| :: IsAssignable(env, from.arms[i], to)
    else if to.UnionT? then exists i | 0 <= i < |to.arms| :: IsAssignable(env, from, to.arms[i])
    else if to.InterT? then forall i | 0 <= i < |to.arms| :: IsAssignable(env, from, to.arms[i])
    else if from.InterT? then forall i | 0 <= i < |from.arms| :: IsAssignable(env, from.arms[i], to)
    else if to.ObjectT? && from.ObjectT? then
      (forall i | 0 <= i < |to.fields| :: FieldAssignable(env, from.fields, to.fields[i]))
      && (to.index.Present? ==> from.index.Present? && IsAssignable(env, from.index.ty, to.index.ty))
    else if to.ObjectT? && from.MapT? && to.index.Present? && to.fields == [] then
      IsAssignable(env, from.valueType, to.index.ty)
    else if to.MapT? && from.MapT? then IsAssignable(env, from.valueType, to.valueType)
    else if to.MapT? && from.ObjectT? && from.index.Present? then IsAssignable(env, from.index.ty, to.valueType)
    else if from.TupleT? && to.TupleT? then
      |from.elements| == |to.elements|
      && forall i | 0 <= i < |from.elements| :: IsAssignable(env, from.elements[i], to.elements[i])
    else if from.FunctionT? && to.FunctionT? then
      from.isAsync == to.isAsync && ListsEqual(from.params, to.params) && MaybeEqual(from.ret, to.ret)
    else if from.FutureT? && to.FutureT? then
      if from.inner.Absent? || to.inner.Absent? then from.inner == to.inner
      else IsAssignable(env, from.inner.ty, to.inner.ty)
    else if (from.PtrT? && to.PtrT?) || (from.FnPtrT? && to.FnPtrT?) || (from.FixedArrayT? && to.FixedArrayT?) then
      TypesEqual(from, to)
    else BaseAssignable(env, from, to)
  }

  /** The first source field of the name is assignable to the target field. */
  predicate FieldAssignable(env: Env, from: seq<Field>, to: Field)
    decreases from, to, 0
  {
    exists j | 0 <= j < |from| :: IsFirstField(from, to.name, j) && IsAssignable(env, from[j].ty, to.ty)
  }

  /** `fields.find` by name picks position `j`. */
  predicate IsFirstField(fields: seq<Field>, name: string, j: nat) {
    j < |fields| && fields[j].name == name && forall k | 0 <= k < j :: fields[k].name != name
  }

  /** A literal's base is never assignable through the map case. */
  lemma LiteralBaseHasNoMapCase(env: Env, lit: LiteralValue, to: Type)
    ensures BaseAssignable(env, LiteralBase(lit), to) == NominalAssignable(env, LiteralBase(lit), to)
  {
  }

  /* ---------- Soundness ---------- */

  /** No intersection inside the type is empty: an empty one is assignable to
      everything and has every value. */
  predicate NoEmptyIntersection(t: Type)
    decreases t, 1
  {
    match t
    case ArrayT(e) => NoEmptyIntersection(e)
    case TupleT(es) => AllNonEmpty(es)
    case UnionT(arms) => AllNonEmpty(arms)
    case InterT(arms) => arms != [] && AllNonEmpty(arms)
    case ObjectT(_, fs, ix) =>
      (forall i | 0 <= i < |fs| :: NoEmptyIntersection(fs[i].ty)) && (ix.Present? ==> NoEmptyIntersection(ix.ty))
    case MapT(e) => NoEmptyIntersection(e)
    case FutureT(inner) => inner.Present? ==> NoEmptyIntersection(inner.ty)
    case _ => true
  }

  predicate AllNonEmpty(ts: seq<Type>)
    decreases ts, 0
  {
    forall i | 0 <= i < |ts| :: NoEmptyIntersection(ts[i])
  }

  /** The tables are closed and unambiguous: ancestors and implemented interfaces are
      themselves registered, and base-interface tables are transitively closed. */
  ghost predicate ClosedTables(env: Env) {
    (forall n | n in env.classes :: ClosedClass(env, env.classes[n]) && env.classes[n].name == n)
    && (forall n | n in env.interfaces ::
          n in env.interfaces[n].offsets
          && forall b | b in env.interfaces[n].offsets ::
               b in env.interfaces && env.interfaces[b].offsets.Keys <= env.interfaces[n].offsets.Keys)
  }

  ghost predicate ClosedClass(env: Env, d: ClassDef)
    decreases d
  {
    d.name in env.classes && env.classes[d.name] == d
    && (forall i | 0 <= i < |d.implemented| ::
          d.implemented[i].name in env.interfaces && env.interfaces[d.implemented[i].name] == d.implemented[i])
    && (d.superclass.Some? ==> ClosedClass(env, d.superclass.value))
  }

  /** Every base of an interface with an index signature has one too, and the checker
      finds the one assignable to the other. */
  predicate IndexAssignable(env: Env) {
    forall n, b | n in env.interfaces && b in env.interfaces[n].offsets && env.interfaces[n].index.Present? ::
      b in env.interfaces && env.interfaces[b].index.Present? && NoEmptyIntersection(env.interfaces[n].index.ty)
      && IsAssignable(env, env.interfaces[n].index.ty, env.interfaces[b].index.ty)
  }

  lemma {:induction false} ChainTransitive(env: Env, d: ClassDef, a: string, b: string)
    requires ClosedClass(env, d) && OnChain(d, a) && a in env.classes && OnChain(env.classes[a], b)
    ensures OnChain(d, b)
    decreases d
  {
    if d.name != a { ChainTransitive(env, d.superclass.value, a, b); }
  }

  lemma {:induction false} SatisfiesFromAncestor(env: Env, d: ClassDef, a: string, iface: string)
    requires ClosedClass(env, d) && OnChain(d, a) && a in env.classes && Satisfies(env.classes[a], iface)
    ensures Satisfies(d, iface)
    decreases d
  {
    if d.name != a { SatisfiesFromAncestor(env, d.superclass.value, a, iface); }
  }

  lemma {:induction false} SatisfiesBase(env: Env, d: ClassDef, iface: string, base: string)
    requires ClosedTables(env) && ClosedClass(env, d) && Satisfies(d, iface)
    requires iface in env.interfaces && base in env.interfaces[iface].offsets
    ensures Satisfies(d, base)
    decreases d
  {
    if i :| 0 <= i < |d.implemented| && (d.implemented[i].name == iface || iface in d.implemented[i].offsets) {
      assert env.interfaces[d.implemented[i].name] == d.implemented[i];
      assert base in d.implemented[i].offsets;
    } else {
      SatisfiesBase(env, d.superclass.value, iface, base);
    }
  }

  lemma ClosedAt(env: Env, n: string)
    requires ClosedTables(env) && n in env.classes
    ensures ClosedClass(env, env.classes[n])
  {
  }

  lemma {:induction false} NominalSound(env: Env, from: Type, to: Type, v: Value)
    requires ClosedTables(env) && IndexAssignable(env)
    requires NominalAssignable(env, from, to) && HasType(env, v, from)
    ensures HasType(env, v, to)
    decreases v, from, to, 0
  {
    hide ClosedTables, IndexAssignable, ClosedClass, Satisfies, OnChain, IsAssignable;
    if TypesEqual(from, to) {
      EqualTypesSameValues(env, v, from, to);
    } else if from.kind == ClassKind {
      ClosedAt(env, v.cls);
      if to.kind == ClassKind {
        ChainTransitive(env, env.classes[v.cls], from.name, to.name);
      } else {
        SatisfiesFromAncestor(env, env.classes[v.cls], from.name, to.name);
      }
    } else if InstanceSatisfies(env, v, from.name) {
      ClosedAt(env, v.cls);
      SatisfiesBase(env, env.classes[v.cls], from.name, to.name);
    } else {
      IndexOfBase(env, from.name, to.name);
      forall k | k in v.entries ensures HasType(env, v.entries[k], env.interfaces[to.name].index.ty) {
        AssignableSound(env, env.interfaces[from.name].index.ty, env.interfaces[to.name].index.ty, v.entries[k]);
      }
    }
  }

  lemma IndexOfBase(env: Env, iface: string, base: string)
    requires IndexAssignable(env) && iface in env.interfaces && base in env.interfaces[iface].offsets
    requires env.interfaces[iface].index.Present?
    ensures base in env.interfaces && env.interfaces[base].index.Present?
    ensures NoEmptyIntersection(env.interfaces[iface].index.ty)
    ensures IsAssignable(env, env.interfaces[iface].index.ty, env.interfaces[base].index.ty)
  {
    hide IsAssignable;
  }

  /** Assignability is sound: every value of the source type is a value of the target type. */
  lemma {:induction false} AssignableSound(env: Env, from: Type, to: Type, v: Value)
    requires ClosedTables(env) && IndexAssignable(env) && NoEmptyIntersection(from)
    requires IsAssignable(env, from, to) && HasType(env, v, from)
    ensures HasType(env, v, to)
    decreases v, from, to, 2
  {
    hide *;
    if TypesEqual(from, to) {
      EqualTypesSameValues(env, v, from, to);
    } else if from.LiteralT? && NominalAssignable(env, LiteralBase(from.value), to) {
      LiteralIsBase(env, from, v);
      PrimitiveBaseIsEqual(env, from.value, to);
      EqualTypesSameValues(env, v, LiteralBase(from.value), to);
    } else if from.UnionT? {
      FromUnionSound(env, from, to, v);
    } else if to.UnionT? {
      ToUnionSound(env, from, to, v);
    } else if from == NULL_TYPE || (from.LiteralT? && to.LiteralT?) {
      LeafSound(env, from, to, v);
    } else if from.InterT? || to.InterT? {
      IntersectionSound(env, from, to, v);
    } else {
      StructuralSound(env, from, to, v);
    }
  }

  lemma PrimitiveBaseIsEqual(env: Env, lit: LiteralValue, to: Type)
    requires NominalAssignable(env, LiteralBase(lit), to)
    ensures TypesEqual(LiteralBase(lit), to)
  {
  }

  lemma LiteralIsBase(env: Env, lit: Type, v: Value)
    requires lit.LiteralT? && HasType(env, v, lit)
    ensures HasType(env, v, LiteralBase(lit.value))
  {
  }

  lemma LeafSound(env: Env, from: Type, to: Type, v: Value)
    requires from == NULL_TYPE || (from.LiteralT? && to.LiteralT?)
    requires !to.UnionT? && !TypesEqual(from, to) && (from.LiteralT? ==> !NominalAssignable(env, LiteralBase(from.value), to))
    requires IsAssignable(env, from, to) && HasType(env, v, from)
    ensures HasType(env, v, to)
  {
    hide NominalAssignable;
  }

  lemma {:induction false} FromUnionSound(env: Env, from: Type, to: Type, v: Value)
    requires ClosedTables(env) && IndexAssignable(env) && NoEmptyIntersection(from)
    requires from.UnionT? && !TypesEqual(from, to)
    requires IsAssignable(env, from, to) && HasType(env, v, from)
    ensures HasType(env, v, to)
    decreases v, from, to, 1
  {
    hide ClosedTables, IndexAssignable, NominalAssignable, BaseAssignable, TypesEqual, InstanceOf, InstanceSatisfies;
    var i :| 0 <= i < |from.arms| && HasType(env, v, from.arms[i]);
    AssignableSound(env, from.arms[i], to, v);
  }

  lemma {:induction false} ToUnionSound(env: Env, from: Type, to: Type, v: Value)
    requires ClosedTables(env) && IndexAssignable(env) && NoEmptyIntersection(from)
    requires to.UnionT? && !from.UnionT?
    requires !TypesEqual(from, to) && (from.LiteralT? ==> !NominalAssignable(env, LiteralBase(from.value), to))
    requires IsAssignable(env, from, to) && HasType(env, v, from)
    ensures HasType(env, v, to)
    decreases v, from, to, 1
  {
    hide ClosedTables, IndexAssignable, NominalAssignable, BaseAssignable, TypesEqual, InstanceOf, InstanceSatisfies,
         NoEmptyIntersection;
    var i :| 0 <= i < |to.arms| && IsAssignable(env, from, to.arms[i]);
    AssignableSound(env, from, to.arms[i], v);
    assert HasType(env, v, to.arms[i]);
  }

  lemma {:induction false} IntersectionSound(env: Env, from: Type, to: Type, v: Value)
    requires ClosedTables(env) && IndexAssignable(env) && NoEmptyIntersection(from)
    requires from.InterT? || to.InterT?
    requires !from.UnionT? && !to.UnionT? && from != NULL_TYPE
    requires !TypesEqual(from, to) && (from.LiteralT? ==> !NominalAssignable(env, LiteralBase(from.value), to))
    requires IsAssignable(env, from, to) && HasType(env, v, from)
    ensures HasType(env, v, to)
    decreases v, from, to, 1
  {
    hide ClosedTables, IndexAssignable, NominalAssignable, BaseAssignable, TypesEqual, InstanceOf, InstanceSatisfies;
    if to.InterT? {
      forall i | 0 <= i < |to.arms| ensures HasType(env, v, to.arms[i]) {
        AssignableSound(env, from, to.arms[i], v);
      }
    } else {
      AssignableSound(env, from.arms[0], to, v);
    }
  }

  lemma {:induction false} StructuralSound(env: Env, from: Type, to: Type, v: Value)
    requires ClosedTables(env) && IndexAssignable(env) && NoEmptyIntersection(from)
    requires !from.UnionT? && !from.InterT? && !to.UnionT? && !to.InterT? && from != NULL_TYPE
    requires IsAssignable(env, from, to) && HasType(env, v, from) && !TypesEqual(from, to)
    requires from.LiteralT? ==> !NominalAssignable(env, LiteralBase(from.value), to)
    ensures HasType(env, v, to)
    decreases v, from, to, 1
  {
    hide ClosedTables, IndexAssignable;
    if to.ObjectT? && from.ObjectT? {
      forall i | 0 <= i < |to.fields|
        ensures to.fields[i].name in v.entries && HasType(env, v.entries[to.fields[i].name], to.fields[i].ty)
      {
        assert FieldAssignable(env, from.fields, to.fields[i]);
        var j :| 0 <= j < |from.fields| && IsFirstField(from.fields, to.fields[i].name, j)
                 && IsAssignable(env, from.fields[j].ty, to.fields[i].ty);
        AssignableSound(env, from.fields[j].ty, to.fields[i].ty, v.entries[from.fields[j].name]);
      }
      if to.index.Present? { forall k | k in v.entries ensures HasType(env, v.entries[k], to.index.ty) {
        AssignableSound(env, from.index.ty, to.index.ty, v.entries[k]);
      } }
    } else if to.ObjectT? && from.MapT? {
      forall k | k in v.entries ensures HasType(env, v.entries[k], to.index.ty) {
        AssignableSound(env, from.valueType, to.index.ty, v.entries[k]);
      }
    } else if to.MapT? && from.MapT? {
      forall k | k in v.entries ensures HasType(env, v.entries[k], to.valueType) {
        AssignableSound(env, from.valueType, to.valueType, v.entries[k]);
      }
    } else if to.MapT? && from.ObjectT? && from.index.Present? {
      forall k | k in v.entries ensures HasType(env, v.entries[k], to.valueType) {
        AssignableSound(env, from.index.ty, to.valueType, v.entries[k]);
      }
    } else if from.TupleT? && to.TupleT? {
      forall i | 0 <= i < |to.elements| ensures HasType(env, v.items[i], to.elements[i]) {
        AssignableSound(env, from.elements[i], to.elements[i], v.items[i]);
      }
    } else if from.FutureT? && to.FutureT? {
      if v.state.DoneWith? { AssignableSound(env, from.inner.ty, to.inner.ty, v.state.v); }
    } else if from.MapT? && to.NominalT? {
      forall k | k in v.entries ensures HasType(env, v.entries[k], env.interfaces[to.name].index.ty) {
        AssignableSound(env, from.valueType, env.interfaces[to.name].index.ty, v.entries[k]);
      }
    } else {
      assert NominalAssignable(env, from, to);
      NominalSound(env, from, to, v);
    }
  }

  /** Why empty intersections are excluded. */
  lemma EmptyIntersectionUnsound(env: Env)
    ensures IsAssignable(env, InterT([]), Prim("string"))
    ensures HasType(env, VNull, InterT([])) && !HasType(env, VNull, Prim("string"))
  {
  }

  ghost predicate BasesSound(env: Env) {
    forall n, b, v | n in env.interfaces && b in env.interfaces[n].offsets ::
      HasType(env, v, NominalT(InterfaceKind, n)) ==> HasType(env, v, NominalT(InterfaceKind, b))
  }

  /** An interface with an index signature hands it on to every base. */
  ghost predicate IndexCoherent(env: Env) {
    forall n, b | n in env.interfaces && b in env.interfaces[n].offsets && env.interfaces[n].index.Present? ::
      IndexInherited(env, n, b)
  }

  ghost predicate IndexInherited(env: Env, n: string, b: string)
    requires n in env.interfaces && env.interfaces[n].index.Present?
  {
    b in env.interfaces && env.interfaces[b].index.Present?
    && forall v :: HasType(env, v, env.interfaces[n].index.ty) ==> HasType(env, v, env.interfaces[b].index.ty)
  }

  /** A map that an interface accepts and its base does not. */
  lemma UninheritedIndex(env: Env, n: string, b: string) returns (record: Value)
    requires n in env.interfaces && env.interfaces[n].index.Present? && !IndexInherited(env, n, b)
    ensures HasType(env, record, NominalT(InterfaceKind, n)) && !HasType(env, record, NominalT(InterfaceKind, b))
  {
    if b in env.interfaces && env.interfaces[b].index.Present? {
      var v :| HasType(env, v, env.interfaces[n].index.ty) && !HasType(env, v, env.interfaces[b].index.ty);
      record := VRecord(map["key" := v]);
      assert record.entries["key"] == v;
    } else {
      record := VRecord(map[]);
    }
  }

  /** Coherent index signatures are exactly what makes an interface's values values of
      its bases: a map accepted through an index signature must fit every base too. */
  lemma IndexCoherenceIsExact(env: Env)
    requires ClosedTables(env)
    ensures BasesSound(env) <==> IndexCoherent(env)
  {
    if IndexCoherent(env) {
      forall n, b, v | n in env.interfaces && b in env.interfaces[n].offsets && HasType(env, v, NominalT(InterfaceKind, n))
        ensures HasType(env, v, NominalT(InterfaceKind, b))
      {
        CoherentBase(env, n, b, v);
      }
    } else {
      hide ClosedTables, HasType;
      var n, b :| n in env.interfaces && b in env.interfaces[n].offsets && env.interfaces[n].index.Present?
        && !IndexInherited(env, n, b);
      var _ := UninheritedIndex(env, n, b);
    }
  }

  lemma CoherentBase(env: Env, n: string, b: string, v: Value)
    requires ClosedTables(env) && IndexCoherent(env) && n in env.interfaces && b in env.interfaces[n].offsets
    requires HasType(env, v, NominalT(InterfaceKind, n))
    ensures HasType(env, v, NominalT(InterfaceKind, b))
  {
    hide ClosedTables, ClosedClass, Satisfies, HasType;
    InterfaceValues(env, n, v);
    InterfaceValues(env, b, v);
    if InstanceSatisfies(env, v, n) {
      ClosedAt(env, v.cls);
      SatisfiesBase(env, env.classes[v.cls], n, b);
    } else {
      assert IndexInherited(env, n, b);
    }
  }

  /** The values of an interface type: instances, and records that fit its index type. */
  lemma InterfaceValues(env: Env, n: string, v: Value)
    ensures HasType(env, v, NominalT(InterfaceKind, n)) <==>
      InstanceSatisfies(env, v, n)
      || (n in env.interfaces && env.interfaces[n].index.Present? && EntriesHaveType(env, v, env.interfaces[n].index.ty))
  {
  }

  /** What the checker can find out about the tables is enough for coherence. */
  lemma AssignableIndexesCohere(env: Env)
    requires ClosedTables(env) && IndexAssignable(env)
    ensures IndexCoherent(env)
  {
    hide ClosedTables, IndexAssignable, HasType, IsAssignable, NoEmptyIntersection;
    forall n, b | n in env.interfaces && b in env.interfaces[n].offsets && env.interfaces[n].index.Present?
      ensures IndexInherited(env, n, b)
    {
      IndexOfBase(env, n, b);
      forall v | HasType(env, v, env.interfaces[n].index.ty) ensures HasType(env, v, env.interfaces[b].index.ty) {
        AssignableSound(env, env.interfaces[n].index.ty, env.interfaces[b].index.ty, v);
      }
    }
  }

  predicate PrimIndexes(env: Env) {
    forall n | n in env.interfaces && env.interfaces[n].index.Present? :: env.interfaces[n].index.ty.Prim?
  }

  lemma PrimAssignableIff(env: Env, p: string, q: string)
    ensures IsAssignable(env, Prim(p), Prim(q)) <==> p == q
    ensures (forall v :: HasType(env, v, Prim(p)) ==> HasType(env, v, Prim(q))) <==> p == q
  {
    var v := if p == "null" then VNull else if p == "string" then VString("") else if p == "bool" then VBool(true)
             else VScalar(p, 0);
    assert HasType(env, v, Prim(p)) && (HasType(env, v, Prim(q)) ==> p == q);
  }

  /** Where index signatures are of primitive types it is also necessary: interfaces are
      assignable to their bases soundly if and only if every base of an interface with an
      index signature has one of the same type. */
  lemma PrimIndexesCohereIff(env: Env)
    requires ClosedTables(env) && PrimIndexes(env)
    ensures BasesSound(env) <==> IndexAssignable(env)
  {
    hide ClosedTables, HasType, IsAssignable;
    IndexCoherenceIsExact(env);
    if IndexAssignable(env) { AssignableIndexesCohere(env); }
    if IndexCoherent(env) {
      forall n, b | n in env.interfaces && b in env.interfaces[n].offsets && env.interfaces[n].index.Present?
        ensures b in env.interfaces && env.interfaces[b].index.Present? && NoEmptyIntersection(env.interfaces[n].index.ty)
        ensures IsAssignable(env, env.interfaces[n].index.ty, env.interfaces[b].index.ty)
      {
        assert IndexInherited(env, n, b);
        PrimAssignableIff(env, env.interfaces[n].index.ty.name, env.interfaces[b].index.ty.name);
      }
    }
  }

  /* ---------- Tables built by the collectors ---------- */

  /** Tables whose every entry was accepted by the collectors. */
  ghost predicate Collected(env: Env) {
    (forall n | n in env.interfaces ::
       env.interfaces[n].name == n && Finished(env.interfaces[n]) && Registered(env.interfaces, env.interfaces[n]))
    && (forall n | n in env.classes ::
          env.classes[n].name == n && FinishedClass(env.classes[n])
          && RegisteredClass(env.classes, env.classes[n]) && InterfacesRegistered(env.interfaces, env.classes[n]))
  }

  lemma {:induction false} RegisteredIsClosed(env: Env, d: ClassDef)
    requires RegisteredClass(env.classes, d) && InterfacesRegistered(env.interfaces, d)
    ensures ClosedClass(env, d)
    decreases d
  {
    if d.superclass.Some? { RegisteredIsClosed(env, d.superclass.value); }
    forall i | 0 <= i < |d.implemented|
      ensures d.implemented[i].name in env.interfaces && env.interfaces[d.implemented[i].name] == d.implemented[i]
    {
      assert Registered(env.interfaces, d.implemented[i]);
    }
  }

  lemma CollectedTablesAreClosed(env: Env)
    requires Collected(env)
    ensures ClosedTables(env)
  {
    forall n | n in env.classes ensures ClosedClass(env, env.classes[n]) {
      RegisteredIsClosed(env, env.classes[n]);
    }
    forall n | n in env.interfaces
      ensures n in env.interfaces[n].offsets
      ensures forall b | b in env.interfaces[n].offsets ::
          b in env.interfaces && env.interfaces[b].offsets.Keys <= env.interfaces[n].offsets.Keys
    {
      FinishedTable(env.interfaces[n]);
      forall b | b in env.interfaces[n].offsets
        ensures b in env.interfaces && env.interfaces[b].offsets.Keys <= env.interfaces[n].offsets.Keys
      {
        OffsetKeyDefined(env.interfaces, env.interfaces[n], b);
      }
    }
  }

  /** Interface conformance: a class type assignable to an interface type has every
      method of the interface with equal parameter and return types. */
  lemma AssignableClassConforms(env: Env, cls: string, iface: string, m: InterfaceMethod)
    requires Collected(env) && cls in env.classes && iface in env.interfaces && m in env.interfaces[iface].methods
    requires IsAssignable(env, NominalT(ClassKind, cls), NominalT(InterfaceKind, iface))
    ensures HasMethod(env.classes[cls], m)
  {
    SatisfyingClassConforms(env.interfaces, env.classes[cls], iface, m);
  }

  /** And in any tables of finished definitions, also where modules share names: a class
      type assignable to an interface type implements a definition of that name, and has
      its methods. The table may hold another definition under the name. */
  lemma AssignableClassImplements(env: Env, cls: string, iface: string) returns (d: InterfaceDef)
    requires AllFinishedClasses(env.classes) && cls in env.classes
    requires IsAssignable(env, NominalT(ClassKind, cls), NominalT(InterfaceKind, iface))
    ensures d.name == iface && Finished(d) && forall m | m in d.methods :: HasMethod(env.classes[cls], m)
    ensures iface in env.interfaces && env.interfaces[iface] == d ==>
      forall m | m in env.interfaces[iface].methods :: HasMethod(env.classes[cls], m)
  {
    d := SatisfiedDefinition(env.classes[cls], iface);
  }

  predicate Answers(env: Env, v: Value, m: InterfaceMethod) {
    v.VInstance? && v.cls in env.classes && HasMethod(env.classes[v.cls], m)
  }

  /** The value answers every method of the interface. */
  predicate ProvidesMethods(env: Env, v: Value, iface: string)
    requires iface in env.interfaces
  {
    forall i | 0 <= i < |env.interfaces[iface].methods| :: Answers(env, v, env.interfaces[iface].methods[i])
  }

  lemma OnlyInstancesProvide(env: Env, v: Value, iface: string)
    requires iface in env.interfaces && env.interfaces[iface].methods != [] && !v.VInstance?
    ensures !ProvidesMethods(env, v, iface)
  {
    hide HasMethod;
    assert !Answers(env, v, env.interfaces[iface].methods[0]);
  }

  /** Every value of an interface type provides its methods if and only if the interface
      has no methods or no index signature: with both, a map that merely fits the index
      type is accepted too. */
  lemma InterfaceValuesConformIff(env: Env, iface: string)
    requires Collected(env) && iface in env.interfaces
    ensures (forall v :: HasType(env, v, NominalT(InterfaceKind, iface)) ==> ProvidesMethods(env, v, iface))
       <==> env.interfaces[iface].methods == [] || env.interfaces[iface].index.Absent?
  {
    hide HasType, Satisfies;
    var d := env.interfaces[iface];
    if d.methods == [] || d.index.Absent? {
      forall v | HasType(env, v, NominalT(InterfaceKind, iface)) ensures ProvidesMethods(env, v, iface) {
        InterfaceValues(env, iface, v);
        if d.methods != [] { InstanceProvides(env, v, iface); }
      }
    } else {
      var record := VRecord(map[]);
      InterfaceValues(env, iface, record);
      OnlyInstancesProvide(env, record, iface);
    }
  }

  lemma InstanceProvides(env: Env, v: Value, iface: string)
    requires Collected(env) && iface in env.interfaces && InstanceSatisfies(env, v, iface)
    ensures ProvidesMethods(env, v, iface)
  {
    hide Finished, Registered, FinishedClass, RegisteredClass, InterfacesRegistered, Satisfies, HasMethod;
    forall i | 0 <= i < |env.interfaces[iface].methods|
      ensures Answers(env, v, env.interfaces[iface].methods[i])
    {
      SatisfyingClassConforms(env.interfaces, env.classes[v.cls], iface, env.interfaces[iface].methods[i]);
    }
  }

  /** The checker lets such a map in: a map type is assignable to the interface whatever
      methods it has, and no map provides any. */
  lemma MapWithoutMethods(env: Env, iface: string)
    requires iface in env.interfaces && env.interfaces[iface].index.Present? && env.interfaces[iface].methods != []
    ensures var mapType := MapT(env.interfaces[iface].index.ty);
      IsAssignable(env, mapType, NominalT(InterfaceKind, iface))
      && forall v | HasType(env, v, mapType) :: !ProvidesMethods(env, v, iface)
  {
    hide HasType;
    var mapType := MapT(env.interfaces[iface].index.ty);
    EqualRefl(env.interfaces[iface].index.ty);
    assert BaseAssignable(env, mapType, NominalT(InterfaceKind, iface));
    forall v | HasType(env, v, mapType) ensures !ProvidesMethods(env, v, iface) {
      MapIsNoInstance(env, v, mapType);
      OnlyInstancesProvide(env, v, iface);
    }
  }

  lemma MapIsNoInstance(env: Env, v: Value, t: Type)
    requires t.MapT? && HasType(env, v, t)
    ensures v.VRecord?
  {
  }

  /* ---------- An index signature that the base lacks ---------- */

  const PLAIN := InterfaceDef("A", [], [], map["A" := 0], Absent, InterfaceDecl([], [], NoIndex))
  const INDEXED := InterfaceDef("B", [PLAIN], [], map["B" := 0, "A" := 0], Present(Prim("i32")),
                                InterfaceDecl([TypeRef(None, "A")], [], IndexOf(Prim("i32"))))

  function IndexedTables(): Env {
    Env(map[], map["A" := PLAIN, "B" := INDEXED])
  }

  lemma IndexedTablesCollected()
    ensures Collected(IndexedTables())
  {
    var env := IndexedTables();
    assert AddBases(EmptyItable("A"), []) == EmptyItable("A");
    assert AddOwnMethods(EmptyItable("A"), []) == EmptyItable("A");
    assert Finished(PLAIN);
    var t := AddBase(EmptyItable("B"), PLAIN);
    assert RecordOffsets(map["B" := 0], 0, PLAIN) == INDEXED.offsets;
    assert [PLAIN][1..] == [] && AddBases(EmptyItable("B"), [PLAIN]) == AddBases(t, []) == t;
    assert AddOwnMethods(t, []) == t;
    assert Finished(INDEXED);
    assert Registered(env.interfaces, PLAIN) && Registered(env.interfaces, INDEXED);
  }

  /** Tables the collectors accept, an assignment the checker accepts, and a value that is
      lost: `B` extends `A` and adds an index signature. */
  lemma IndexedBaseUnsound() returns (record: Value)
    ensures var env := IndexedTables();
      Collected(env) && !IndexAssignable(env)
      && IsAssignable(env, NominalT(InterfaceKind, "B"), NominalT(InterfaceKind, "A"))
      && HasType(env, record, NominalT(InterfaceKind, "B")) && !HasType(env, record, NominalT(InterfaceKind, "A"))
  {
    var env := IndexedTables();
    IndexedTablesCollected();
    hide Collected, Finished, Registered;
    record := VRecord(map[]);
    InterfaceValues(env, "B", record);
    InterfaceValues(env, "A", record);
    assert "A" in env.interfaces["B"].offsets;
    assert NominalAssignable(env, NominalT(InterfaceKind, "B"), NominalT(InterfaceKind, "A"));
  }
}
