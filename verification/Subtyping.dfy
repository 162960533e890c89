/** Assignability is complete: what it refuses has a value that would not fit. Together with
    its soundness, it is inclusion of values on types that have values of their own. */
module Subtyping {
  import opened Types
  import opened Interfaces
  import opened Classes
  import opened ClassCollection
  import opened Assignability

  /* ---------- Bounds on the literals and names in a type ---------- */

  function Max(a: nat, b: nat): (r: nat)
    ensures a <= r && b <= r
  {
    if a < b then b else a
  }

  function BoundOf(t: Type): nat
    decreases t, 1
  {
    match t
    case LiteralT(LString(s)) => |s|
    case LiteralT(LNumber(n)) => if n < 0 then 0 else n
    case TupleT(es) => BoundOfAll(es)
    case UnionT(arms) => BoundOfAll(arms)
    case ObjectT(_, fs, ix) => Max(BoundOfFields(fs), if ix.Present? then BoundOf(ix.ty) else 0)
    case MapT(e) => BoundOf(e)
    case FutureT(inner) => if inner.Present? then BoundOf(inner.ty) else 0
    case _ => 0
  }

  function BoundOfAll(ts: seq<Type>): (b: nat)
    ensures forall i | 0 <= i < |ts| :: BoundOf(ts[i]) <= b
    decreases ts, 0
  {
    if ts == [] then 0 else Max(BoundOf(ts[0]), BoundOfAll(ts[1..]))
  }

  function BoundOfFields(fs: seq<Field>): (b: nat)
    ensures forall i | 0 <= i < |fs| :: |fs[i].name| <= b && BoundOf(fs[i].ty) <= b
    decreases fs, 0
  {
    if fs == [] then 0 else Max(Max(|fs[0].name|, BoundOf(fs[0].ty)), BoundOfFields(fs[1..]))
  }

  ghost function BoundOfIndexes(interfaces: map<string, InterfaceDef>, names: set<string>): (b: nat)
    requires names <= interfaces.Keys
    ensures forall n | n in names && interfaces[n].index.Present? :: BoundOf(interfaces[n].index.ty) <= b
  {
    if names == {} then 0
    else
      var n :| n in names;
      Max(if interfaces[n].index.Present? then BoundOf(interfaces[n].index.ty) else 0,
          BoundOfIndexes(interfaces, names - {n}))
  }

  /* ---------- Types with a value of their own ---------- */

  /** The type has a value that belongs to no type it is not assignable to. Arrays are
      invariant, a type that nothing but null fits a field of is not; interfaces have the
      instances of their classes only; an object with an index signature is not taken for
      an interface with one. */
  predicate Concrete(env: Env, t: Type)
    decreases t
  {
    match t
    case TupleT(es) => forall i | 0 <= i < |es| :: Concrete(env, es[i])
    case ObjectT(_, fs, ix) =>
      (forall i | 0 <= i < |fs| :: Concrete(env, fs[i].ty))
      && DistinctNames(fs)
      && (ix.Present? ==>
            Concrete(env, ix.ty) && (forall i | 0 <= i < |fs| :: IsAssignable(env, fs[i].ty, ix.ty))
            && forall n | n in env.interfaces :: env.interfaces[n].index.Absent?)
    case MapT(e) => Concrete(env, e)
    case FutureT(inner) => inner.Present? ==> Concrete(env, inner.ty)
    case ArrayT(_) => false
    case UnionT(_) => false
    case InterT(_) => false
    case NominalT(ClassKind, n) => n in env.classes
    case NominalT(InterfaceKind, _) => false
    case _ => true
  }

  /** As a target the type has no part that admits values the checker refuses: no
      intersection, no object type without any entries, and no unknown interface. */
  predicate Plain(env: Env, t: Type)
    decreases t
  {
    match t
    case TupleT(es) => forall i | 0 <= i < |es| :: Plain(env, es[i])
    case UnionT(arms) => forall i | 0 <= i < |arms| :: Plain(env, arms[i])
    case ObjectT(_, fs, ix) =>
      (fs != [] || ix.Present?) && (forall i | 0 <= i < |fs| :: Plain(env, fs[i].ty))
      && (ix.Present? ==> Plain(env, ix.ty))
    case MapT(e) => Plain(env, e)
    case FutureT(inner) => inner.Present? ==> Plain(env, inner.ty)
    case InterT(_) => false
    case NominalT(InterfaceKind, n) => n in env.interfaces
    case _ => true
  }

  predicate PlainIndexes(env: Env) {
    forall n | n in env.interfaces && env.interfaces[n].index.Present? :: Plain(env, env.interfaces[n].index.ty)
  }

  function Long(k: nat): (s: string)
    ensures |s| == k
  {
    seq(k, _ => 'x')
  }

  /** The value of a concrete type, with scalars, strings and keys beyond the bound `k`. */
  function Own(t: Type, k: nat): Value
    decreases t, 1
  {
    match t
    case Prim(p) =>
      if p == "null" then VNull
      else if p == "string" then VString(Long(k))
      else if p == "bool" then VBool(true)
      else VScalar(p, k)
    case LiteralT(LString(s)) => VString(s)
    case LiteralT(LNumber(n)) => VScalar("i32", n)
    case TupleT(es) => VTuple(seq(|es|, i requires 0 <= i < |es| => Own(es[i], k)))
    case ObjectT(_, fs, ix) =>
      VRecord(OwnFields(fs, k)[Long(k) := if ix.Present? then Own(ix.ty, k) else VUnset])
    case MapT(e) => VRecord(map[Long(k) := Own(e, k)])
    case FunctionT(_, _, _) => VFunction(t)
    case FutureT(inner) => VFuture(if inner.Present? then DoneWith(Own(inner.ty, k)) else DoneVoid)
    case PtrT(_) => VPointer(t)
    case FnPtrT(_, _) => VPointer(t)
    case FixedArrayT(_, _) => VFixed(t)
    case TypeParamT(n, _) => VOpaque(n)
    case NominalT(ClassKind, n) => VInstance(n)
    case NominalT(kind, n) => VNominal(kind, n)
    case _ => VUnset
  }

  predicate DistinctNames(fs: seq<Field>) {
    forall i, j | 0 <= i < j < |fs| :: fs[i].name != fs[j].name
  }

  function OwnFields(fs: seq<Field>, k: nat): (r: map<string, Value>)
    ensures DistinctNames(fs) ==>
      forall i | 0 <= i < |fs| :: fs[i].name in r && r[fs[i].name] == Own(fs[i].ty, k)
    ensures forall n | n in r :: exists i | 0 <= i < |fs| :: fs[i].name == n
    decreases fs, 0
  {
    if fs == [] then map[] else OwnFields(fs[1..], k)[fs[0].name := Own(fs[0].ty, k)]
  }

  lemma {:induction false} OwnHasType(env: Env, t: Type, k: nat)
    requires ClosedTables(env) && IndexAssignable(env) && Concrete(env, t) && BoundOf(t) < k
    ensures HasType(env, Own(t, k), t) && NoEmptyIntersection(t)
    decreases t
  {
    hide ClosedTables, IndexAssignable, ClosedClass, IsAssignable, TypesEqual;
    match t
    case TupleT(es) =>
      forall i | 0 <= i < |es| ensures HasType(env, Own(es[i], k), es[i]) && NoEmptyIntersection(es[i]) {
        OwnHasType(env, es[i], k);
      }
    case ObjectT(_, fs, ix) => OwnRecordHasType(env, t, k);
    case MapT(e) => OwnHasType(env, e, k);
    case FutureT(inner) => if inner.Present? { OwnHasType(env, inner.ty, k); }
    case NominalT(ClassKind, n) => OwnClass(env, n);
    case _ => EqualRefl(t);
  }

  lemma OwnClass(env: Env, n: string)
    requires ClosedTables(env) && n in env.classes
    ensures OnChain(env.classes[n], n)
  {
    hide ClosedClass;
  }

  /** The entries of a record's own value: its fields, and one more. */
  lemma OwnEntries(t: Type, k: nat)
    requires t.ObjectT? && DistinctNames(t.fields) && BoundOfFields(t.fields) < k
    ensures var v := Own(t, k);
      v.VRecord? && Long(k) in v.entries
      && v.entries[Long(k)] == (if t.index.Present? then Own(t.index.ty, k) else VUnset)
      && (forall i | 0 <= i < |t.fields| ::
            t.fields[i].name in v.entries && v.entries[t.fields[i].name] == Own(t.fields[i].ty, k))
      && forall n | n in v.entries && n != Long(k) :: exists i | 0 <= i < |t.fields| :: t.fields[i].name == n
  {
    hide BoundOf;
    assert forall i | 0 <= i < |t.fields| :: t.fields[i].name != Long(k);
  }

  lemma BoundOfParts(t: Type)
    requires t.ObjectT?
    ensures BoundOfFields(t.fields) <= BoundOf(t) && (t.index.Present? ==> BoundOf(t.index.ty) <= BoundOf(t))
  {
  }

  lemma {:induction false} OwnRecordHasType(env: Env, t: Type, k: nat)
    requires ClosedTables(env) && IndexAssignable(env) && Concrete(env, t) && BoundOf(t) < k && t.ObjectT?
    ensures HasType(env, Own(t, k), t) && NoEmptyIntersection(t)
    decreases t, 0
  {
    hide ClosedTables, IndexAssignable, IsAssignable, Own, BoundOf, HasType;
    var fs, ix := t.fields, t.index;
    BoundOfParts(t);
    OwnEntries(t, k);
    var v := Own(t, k);
    if ix.Present? { OwnHasType(env, ix.ty, k); }
    forall i | 0 <= i < |fs|
      ensures HasType(env, v.entries[fs[i].name], fs[i].ty) && NoEmptyIntersection(fs[i].ty)
      ensures ix.Present? ==> HasType(env, v.entries[fs[i].name], ix.ty)
    {
      OwnHasType(env, fs[i].ty, k);
      if ix.Present? { AssignableSound(env, fs[i].ty, ix.ty, Own(fs[i].ty, k)); }
    }
    RecordHasType(env, v, t);
  }

  lemma RecordHasType(env: Env, v: Value, t: Type)
    requires t.ObjectT?
    ensures HasType(env, v, t) <==>
      v.VRecord?
      && (forall i | 0 <= i < |t.fields| ::
            t.fields[i].name in v.entries && HasType(env, v.entries[t.fields[i].name], t.fields[i].ty))
      && (t.index.Present? ==> forall n | n in v.entries :: HasType(env, v.entries[n], t.index.ty))
  {
  }

  lemma {:induction false} UnsetFitsNothing(env: Env, t: Type)
    requires Plain(env, t)
    ensures !HasType(env, VUnset, t)
    decreases t
  {
    if t.UnionT? { forall i | 0 <= i < |t.arms| ensures !HasType(env, VUnset, t.arms[i]) { UnsetFitsNothing(env, t.arms[i]); } }
  }

  ghost predicate Beyond(env: Env, from: Type, to: Type, k: nat) {
    BoundOf(from) < k && BoundOf(to) < k && BoundOfIndexes(env.interfaces, env.interfaces.Keys) < k
  }

  lemma BeyondParts(env: Env, from: Type, to: Type, k: nat)
    requires Beyond(env, from, to, k)
    ensures BoundOf(from) < k && BoundOf(to) < k
  {
  }

  /** A concrete type is assignable to every type that its own value belongs to. */
  lemma {:induction false} OwnFits(env: Env, from: Type, to: Type, k: nat)
    requires Concrete(env, from) && Plain(env, to) && PlainIndexes(env) && Beyond(env, from, to, k)
    requires HasType(env, Own(from, k), to)
    ensures IsAssignable(env, from, to)
    decreases from, to, 2
  {
    hide *;
    if to.UnionT? {
      OwnUnionFits(env, from, to, k);
    } else if from.TupleT? {
      OwnTupleFits(env, from, to, k);
    } else if from.FutureT? {
      OwnFutureFits(env, from, to, k);
    } else if from.MapT? {
      OwnMapFits(env, from, to, k);
    } else if from.ObjectT? {
      OwnRecordFits(env, from, to, k);
    } else {
      BeyondParts(env, from, to, k);
      OwnLeafFits(env, from, to, k);
    }
  }

  lemma {:induction false} OwnUnionFits(env: Env, from: Type, to: Type, k: nat)
    requires Concrete(env, from) && Plain(env, to) && PlainIndexes(env) && Beyond(env, from, to, k)
    requires HasType(env, Own(from, k), to) && to.UnionT?
    ensures IsAssignable(env, from, to)
    decreases from, to, 0
  {
    hide PlainIndexes, NominalAssignable, BaseAssignable, TypesEqual, Own, InstanceOf, InstanceSatisfies, IsAssignable;
    var i :| 0 <= i < |to.arms| && HasType(env, Own(from, k), to.arms[i]);
    OwnFits(env, from, to.arms[i], k);
    assert !from.UnionT?;
    ArmAssignable(env, from, to, i);
  }

  lemma ArmAssignable(env: Env, from: Type, to: Type, i: nat)
    requires to.UnionT? && !from.UnionT? && i < |to.arms| && IsAssignable(env, from, to.arms[i])
    ensures IsAssignable(env, from, to)
  {
    hide TypesEqual, NominalAssignable, BaseAssignable;
  }

  lemma OwnLeafFits(env: Env, from: Type, to: Type, k: nat)
    requires Concrete(env, from) && Plain(env, to) && BoundOf(to) < k && HasType(env, Own(from, k), to)
    requires !to.UnionT? && !from.TupleT? && !from.FutureT? && !from.MapT? && !from.ObjectT?
    ensures IsAssignable(env, from, to)
  {
    hide Satisfies, OnChain;
    if from.FunctionT? && to.FunctionT? { EqualRefl(from); }
  }

  lemma {:induction false} OwnTupleFits(env: Env, from: Type, to: Type, k: nat)
    requires Concrete(env, from) && Plain(env, to) && PlainIndexes(env) && Beyond(env, from, to, k)
    requires HasType(env, Own(from, k), to) && from.TupleT? && !to.UnionT?
    ensures IsAssignable(env, from, to)
    decreases from, to, 0
  {
    hide IsAssignable, PlainIndexes, TypesEqual, OnChain, Satisfies;
    assert to.TupleT? && |from.elements| == |to.elements|;
    forall i | 0 <= i < |from.elements| ensures IsAssignable(env, from.elements[i], to.elements[i]) {
      OwnFits(env, from.elements[i], to.elements[i], k);
    }
    TuplesAssignable(env, from, to);
  }

  lemma TuplesAssignable(env: Env, from: Type, to: Type)
    requires from.TupleT? && to.TupleT? && |from.elements| == |to.elements|
    requires forall i | 0 <= i < |from.elements| :: IsAssignable(env, from.elements[i], to.elements[i])
    ensures IsAssignable(env, from, to)
  {
    hide TypesEqual, BaseAssignable;
  }

  lemma {:induction false} OwnFutureFits(env: Env, from: Type, to: Type, k: nat)
    requires Concrete(env, from) && Plain(env, to) && PlainIndexes(env) && Beyond(env, from, to, k)
    requires HasType(env, Own(from, k), to) && from.FutureT? && !to.UnionT?
    ensures IsAssignable(env, from, to)
    decreases from, to, 0
  {
    hide PlainIndexes, OnChain, Satisfies;
    if from.inner.Present? { OwnFits(env, from.inner.ty, to.inner.ty, k); }
  }

  lemma {:induction false} OwnMapFits(env: Env, from: Type, to: Type, k: nat)
    requires Concrete(env, from) && Plain(env, to) && PlainIndexes(env) && Beyond(env, from, to, k)
    requires HasType(env, Own(from, k), to) && from.MapT? && !to.UnionT?
    ensures IsAssignable(env, from, to)
    decreases from, to, 0
  {
    hide TypesEqual, OnChain, Satisfies;
    var v := Own(from, k);
    assert Long(k) in v.entries && v.entries[Long(k)] == Own(from.valueType, k);
    if to.MapT? {
      OwnFits(env, from.valueType, to.valueType, k);
    } else if to.ObjectT? {
      BoundOfParts(to);
      OwnFits(env, from.valueType, to.index.ty, k);
    } else {
      OwnFits(env, from.valueType, env.interfaces[to.name].index.ty, k);
    }
  }

  lemma {:induction false} OwnRecordFits(env: Env, from: Type, to: Type, k: nat)
    requires Concrete(env, from) && Plain(env, to) && PlainIndexes(env) && Beyond(env, from, to, k)
    requires HasType(env, Own(from, k), to) && from.ObjectT? && !to.UnionT?
    ensures IsAssignable(env, from, to)
    decreases from, to, 1
  {
    if to.ObjectT? {
      OwnObjectFits(env, from, to, k);
    } else {
      hide TypesEqual, OnChain, Satisfies, Concrete;
      assert DistinctNames(from.fields) by { ConcreteFields(env, from); }
      BoundOfParts(from);
      OwnEntries(from, k);
      if to.MapT? {
        OwnIndexFits(env, from, to.valueType, k);
      } else {
        NoIndexedInterface(env, from, to, k);
      }
    }
  }

  lemma ConcreteFields(env: Env, t: Type)
    requires Concrete(env, t) && t.ObjectT?
    ensures DistinctNames(t.fields) && forall i | 0 <= i < |t.fields| :: Concrete(env, t.fields[i].ty)
  {
  }

  lemma NoIndexedInterface(env: Env, from: Type, to: Type, k: nat)
    requires Concrete(env, from) && Plain(env, to) && PlainIndexes(env) && Beyond(env, from, to, k)
    requires from.ObjectT? && !to.UnionT? && !to.ObjectT? && !to.MapT?
    ensures !HasType(env, Own(from, k), to)
  {
    hide OnChain, Own, BoundOf, Concrete;
    ConcreteFields(env, from);
    BoundOfParts(from);
    OwnEntries(from, k);
    var v := Own(from, k);
    if to.NominalT? && to.kind == InterfaceKind {
      InterfaceValues(env, to.name, v);
      if env.interfaces[to.name].index.Present? {
        NoneIndexed(env, from, to.name);
        UnsetFitsNothing(env, env.interfaces[to.name].index.ty);
        EntriesAre(env, v, env.interfaces[to.name].index.ty);
      }
    }
  }

  lemma NoneIndexed(env: Env, t: Type, iface: string)
    requires Concrete(env, t) && t.ObjectT? && iface in env.interfaces && env.interfaces[iface].index.Present?
    ensures t.index.Absent?
  {
  }

  lemma {:induction false} OwnObjectFits(env: Env, from: Type, to: Type, k: nat)
    requires Concrete(env, from) && Plain(env, to) && PlainIndexes(env) && Beyond(env, from, to, k)
    requires HasType(env, Own(from, k), to) && from.ObjectT? && to.ObjectT?
    ensures IsAssignable(env, from, to)
    decreases from, to, 0
  {
    hide TypesEqual, HasType, IsAssignable, Own, PlainIndexes;
    var v := Own(from, k);
    ConcreteFields(env, from);
    BoundOfParts(from);
    BoundOfParts(to);
    OwnEntries(from, k);
    RecordHasType(env, v, to);
    forall i | 0 <= i < |to.fields|
      ensures FieldAssignable(env, from.fields, to.fields[i])
    {
      assert to.fields[i].name != Long(k);
      var j :| 0 <= j < |from.fields| && from.fields[j].name == to.fields[i].name;
      OwnFits(env, from.fields[j].ty, to.fields[i].ty, k);
      assert IsFirstField(from.fields, to.fields[i].name, j);
    }
    if to.index.Present? {
      EntriesAre(env, v, to.index.ty);
      OwnIndexFits(env, from, to.index.ty, k);
    }
    ObjectsAssignable(env, from, to);
  }

  lemma EntriesAre(env: Env, v: Value, t: Type)
    ensures EntriesHaveType(env, v, t) <==> v.VRecord? && forall n | n in v.entries :: HasType(env, v.entries[n], t)
  {
  }

  lemma ObjectsAssignable(env: Env, from: Type, to: Type)
    requires from.ObjectT? && to.ObjectT?
    requires forall i | 0 <= i < |to.fields| :: FieldAssignable(env, from.fields, to.fields[i])
    requires to.index.Present? ==> from.index.Present? && IsAssignable(env, from.index.ty, to.index.ty)
    ensures IsAssignable(env, from, to)
  {
    hide TypesEqual, BaseAssignable, FieldAssignable;
  }

  lemma {:induction false} OwnIndexFits(env: Env, from: Type, to: Type, k: nat)
    requires Concrete(env, from) && Plain(env, to) && PlainIndexes(env) && Beyond(env, from, to, k) && from.ObjectT?
    requires EntriesHaveType(env, Own(from, k), to)
    ensures from.index.Present? && IsAssignable(env, from.index.ty, to)
    decreases from, to, 0
  {
    hide TypesEqual, OnChain, Satisfies;
    BoundOfParts(from);
    OwnEntries(from, k);
    UnsetFitsNothing(env, to);
    OwnFits(env, from.index.ty, to, k);
  }

  /* ---------- Unions are assigned arm by arm ---------- */

  lemma {:induction false} LeafAssignable(env: Env, a: Type, b: Type, t: Type)
    requires !a.UnionT? && Leaf(b, t) && IsAssignable(env, a, b)
    ensures IsAssignable(env, a, t)
    decreases t
  {
    hide IsAssignable;
    if t.UnionT? {
      var i :| 0 <= i < |t.arms| && Leaf(b, t.arms[i]);
      LeafAssignable(env, a, b, t.arms[i]);
      ArmAssignable(env, a, t, i);
    }
  }

  lemma {:induction false} LeafFound(env: Env, a: Type, t: Type) returns (b: Type)
    requires !a.UnionT? && IsAssignable(env, a, t)
    ensures Leaf(b, t) && IsAssignable(env, a, b)
    decreases t
  {
    hide BaseAssignable;
    b := t;
    if t.UnionT? {
      var i :| 0 <= i < |t.arms| && IsAssignable(env, a, t.arms[i]);
      b := LeafFound(env, a, t.arms[i]);
    }
  }

  lemma {:induction false} EqualLeaf(x: Type, y: Type, a: Type) returns (b: Type)
    requires TypesEqual(x, y) && Leaf(a, x)
    ensures Leaf(b, y) && TypesEqual(a, b)
    decreases x
  {
    b := y;
    if x.UnionT? {
      var i :| 0 <= i < |x.arms| && Leaf(a, x.arms[i]);
      b := EqualLeaf(x.arms[i], y.arms[i], a);
    }
  }

  lemma {:induction false} LeafIsNoUnion(a: Type, t: Type)
    requires Leaf(a, t)
    ensures !a.UnionT?
    decreases t
  {
    if t.UnionT? {
      var i :| 0 <= i < |t.arms| && Leaf(a, t.arms[i]);
      LeafIsNoUnion(a, t.arms[i]);
    }
  }

  lemma {:induction false} FromLeaf(env: Env, a: Type, from: Type, to: Type)
    requires IsAssignable(env, from, to) && Leaf(a, from)
    ensures IsAssignable(env, a, to)
    decreases from
  {
    hide BaseAssignable, NominalAssignable, TypesEqual;
    if TypesEqual(from, to) {
      LeafIsNoUnion(a, from);
      var b := EqualLeaf(from, to, a);
      LeafAssignable(env, a, b, to);
    } else if from.UnionT? {
      var i :| 0 <= i < |from.arms| && Leaf(a, from.arms[i]);
      FromLeaf(env, a, from.arms[i], to);
    }
  }

  lemma {:induction false} ToLeaves(env: Env, from: Type, to: Type)
    requires forall a | Leaf(a, from) :: IsAssignable(env, a, to)
    ensures IsAssignable(env, from, to)
    decreases from
  {
    hide BaseAssignable, NominalAssignable, TypesEqual;
    if from.UnionT? {
      forall i | 0 <= i < |from.arms| ensures IsAssignable(env, from.arms[i], to) {
        forall a | Leaf(a, from.arms[i]) ensures IsAssignable(env, a, to) { assert Leaf(a, from); }
        ToLeaves(env, from.arms[i], to);
      }
    } else {
      assert Leaf(from, from);
    }
  }

  ghost predicate ArmsAssignable(env: Env, from: Type, to: Type) {
    forall a | Leaf(a, from) :: exists b :: Leaf(b, to) && IsAssignable(env, a, b)
  }

  /** However unions are nested, every arm of the source needs one arm of the target. */
  lemma UnionAssignableIff(env: Env, from: Type, to: Type)
    ensures IsAssignable(env, from, to) <==> ArmsAssignable(env, from, to)
  {
    hide IsAssignable;
    if IsAssignable(env, from, to) {
      forall a | Leaf(a, from) ensures exists b :: Leaf(b, to) && IsAssignable(env, a, b) {
        LeafIsNoUnion(a, from);
        FromLeaf(env, a, from, to);
        var b := LeafFound(env, a, to);
      }
    } else if ArmsAssignable(env, from, to) {
      forall a | Leaf(a, from) ensures IsAssignable(env, a, to) {
        LeafIsNoUnion(a, from);
        var b :| Leaf(b, to) && IsAssignable(env, a, b);
        LeafAssignable(env, a, b, to);
      }
      ToLeaves(env, from, to);
    }
  }

  /** Null is assignable to null and pointers, and to unions with such an arm. */
  lemma NullAssignableIff(env: Env, to: Type)
    ensures IsAssignable(env, NULL_TYPE, to) <==> exists b :: Leaf(b, to) && (b == NULL_TYPE || b.PtrT?)
  {
    hide Leaf;
    if IsAssignable(env, NULL_TYPE, to) {
      var b := LeafFound(env, NULL_TYPE, to);
      LeafIsNoUnion(b, to);
      assert Leaf(b, to) && (b == NULL_TYPE || b.PtrT?);
    } else if b :| Leaf(b, to) && (b == NULL_TYPE || b.PtrT?) {
      LeafAssignable(env, NULL_TYPE, b, to);
    }
  }

  /* ---------- Assignability is inclusion ---------- */

  lemma {:induction false} LeafHasType(env: Env, v: Value, a: Type, t: Type)
    requires Leaf(a, t) && HasType(env, v, a)
    ensures HasType(env, v, t)
    decreases t
  {
    if t.UnionT? {
      var i :| 0 <= i < |t.arms| && Leaf(a, t.arms[i]);
      LeafHasType(env, v, a, t.arms[i]);
    }
  }

  lemma {:induction false} ConcreteNonEmpty(env: Env, t: Type)
    requires ClosedTables(env) && IndexAssignable(env) && forall a | Leaf(a, t) :: Concrete(env, a)
    ensures NoEmptyIntersection(t)
    decreases t
  {
    hide ClosedTables, IndexAssignable, Concrete;
    if t.UnionT? {
      forall i | 0 <= i < |t.arms| ensures NoEmptyIntersection(t.arms[i]) {
        forall a | Leaf(a, t.arms[i]) ensures Concrete(env, a) { assert Leaf(a, t); }
        ConcreteNonEmpty(env, t.arms[i]);
      }
    } else {
      assert Leaf(t, t);
      OwnHasType(env, t, BoundOf(t) + 1);
    }
  }

  ghost predicate Included(env: Env, from: Type, to: Type) {
    forall v | HasType(env, v, from) :: HasType(env, v, to)
  }

  /** Between unions of concrete types and plain types, a type is assignable to another if
      and only if all its values are values of the other. */
  lemma AssignableIffIncluded(env: Env, from: Type, to: Type)
    requires ClosedTables(env) && IndexAssignable(env) && PlainIndexes(env)
    requires (forall a | Leaf(a, from) :: Concrete(env, a)) && Plain(env, to)
    ensures IsAssignable(env, from, to) <==> Included(env, from, to)
  {
    hide *;
    if IsAssignable(env, from, to) {
      ConcreteNonEmpty(env, from);
      AssignableIsIncluded(env, from, to);
    } else if Included(env, from, to) {
      forall a | Leaf(a, from) ensures IsAssignable(env, a, to) { IncludedLeaf(env, a, from, to); }
      ToLeaves(env, from, to);
    }
  }

  lemma AssignableIsIncluded(env: Env, from: Type, to: Type)
    requires ClosedTables(env) && IndexAssignable(env) && NoEmptyIntersection(from) && IsAssignable(env, from, to)
    ensures Included(env, from, to)
  {
    hide ClosedTables, IndexAssignable, NoEmptyIntersection, IsAssignable, HasType;
    forall v | HasType(env, v, from) ensures HasType(env, v, to) { AssignableSound(env, from, to, v); }
  }

  lemma IncludedLeaf(env: Env, a: Type, from: Type, to: Type)
    requires ClosedTables(env) && IndexAssignable(env) && PlainIndexes(env)
    requires Leaf(a, from) && Concrete(env, a) && Plain(env, to) && Included(env, from, to)
    ensures IsAssignable(env, a, to)
  {
    hide ClosedTables, IndexAssignable, PlainIndexes, Concrete, Plain, IsAssignable, HasType, Own, BoundOf, Leaf;
    var k := 1 + Max(Max(BoundOf(a), BoundOf(to)), BoundOfIndexes(env.interfaces, env.interfaces.Keys));
    OwnHasType(env, a, k);
    LeafHasType(env, Own(a, k), a, from);
    OwnFits(env, a, to, k);
  }

  lemma ClassIsNominal(env: Env, cls: string, to: Type)
    requires to.NominalT?
    ensures IsAssignable(env, NominalT(ClassKind, cls), to) == NominalAssignable(env, NominalT(ClassKind, cls), to)
  {
    hide Satisfies, OnChain;
  }

  /** A class is assignable to a class or a registered interface if and only if all its
      instances, subclasses included, are values of it. */
  lemma ClassAssignableIff(env: Env, cls: string, to: Type)
    requires ClosedTables(env) && cls in env.classes
    requires to.NominalT? && (to.kind == ClassKind || (to.kind == InterfaceKind && to.name in env.interfaces))
    ensures IsAssignable(env, NominalT(ClassKind, cls), to) <==> Included(env, NominalT(ClassKind, cls), to)
  {
    hide ClosedTables, IsAssignable, NominalAssignable, HasType;
    var from := NominalT(ClassKind, cls);
    ClassIsNominal(env, cls, to);
    if IsAssignable(env, from, to) {
      forall v | HasType(env, v, from) ensures HasType(env, v, to) { InstanceFits(env, cls, to, v); }
    } else {
      OwnInstanceFits(env, cls, to);
      if Included(env, from, to) { IncludedAt(env, from, to, VInstance(cls)); }
    }
  }

  lemma InstanceFits(env: Env, cls: string, to: Type, v: Value)
    requires ClosedTables(env) && cls in env.classes && to.NominalT?
    requires NominalAssignable(env, NominalT(ClassKind, cls), to) && HasType(env, v, NominalT(ClassKind, cls))
    ensures HasType(env, v, to)
  {
    hide ClosedTables, ClosedClass, Satisfies, OnChain;
    ClosedAt(env, v.cls);
    if to.kind == ClassKind {
      OwnClass(env, cls);
      ChainTransitive(env, env.classes[v.cls], cls, to.name);
    } else {
      SatisfiesFromAncestor(env, env.classes[v.cls], cls, to.name);
    }
  }

  lemma OwnInstanceFits(env: Env, cls: string, to: Type)
    requires ClosedTables(env) && cls in env.classes && to.NominalT?
    requires to.kind == ClassKind || (to.kind == InterfaceKind && to.name in env.interfaces)
    ensures HasType(env, VInstance(cls), NominalT(ClassKind, cls))
    ensures HasType(env, VInstance(cls), to) ==> NominalAssignable(env, NominalT(ClassKind, cls), to)
  {
    hide ClosedTables, ClosedClass, Satisfies, OnChain;
    OwnClass(env, cls);
  }

  lemma IncludedAt(env: Env, from: Type, to: Type, v: Value)
    requires Included(env, from, to) && HasType(env, v, from)
    ensures HasType(env, v, to)
  {
  }

  /** An interface is assignable to exactly its reflexive-transitive bases. */
  lemma InterfaceAssignableIff(env: Env, iface: string, base: string)
    requires Collected(env) && iface in env.interfaces
    ensures IsAssignable(env, NominalT(InterfaceKind, iface), NominalT(InterfaceKind, base)) <==>
      base in ClosureNames(env.interfaces[iface])
  {
    hide Finished, Registered, FinishedClass, RegisteredClass, InterfacesRegistered;
    OffsetKeysAreBases(env.interfaces[iface]);
  }

  /* ---------- What is refused although all values fit ---------- */

  /** Arrays and functions are invariant. */
  lemma InvariantIff(env: Env, from: Type, to: Type)
    requires (from.ArrayT? && to.ArrayT?) || (from.FunctionT? && to.FunctionT?)
    ensures IsAssignable(env, from, to) <==> TypesEqual(from, to)
  {
  }

  /** A type is assignable to an intersection as to all its arms; null never is. */
  lemma ToIntersectionIff(env: Env, from: Type, arms: seq<Type>)
    requires !from.UnionT? && !from.InterT?
    ensures IsAssignable(env, from, InterT(arms)) <==>
      from != NULL_TYPE && forall i | 0 <= i < |arms| :: IsAssignable(env, from, arms[i])
  {
    hide BaseAssignable;
  }

  /** An intersection is assignable to a type only if all its arms are, so not even to an
      arm of its own, unless the other arms are assignable to that. */
  lemma FromIntersectionIff(env: Env, arms: seq<Type>, to: Type)
    requires !to.UnionT? && !to.InterT?
    ensures IsAssignable(env, InterT(arms), to) <==> forall i | 0 <= i < |arms| :: IsAssignable(env, arms[i], to)
  {
    hide BaseAssignable;
  }

  const NAMED := ObjectT("", [Field("name", Prim("string"), false)], Absent)
  const AGED := ObjectT("", [Field("age", Prim("i32"), false)], Absent)

  lemma AgedHasNoName(env: Env)
    ensures !IsAssignable(env, AGED, NAMED)
  {
    assert !FieldAssignable(env, AGED.fields, NAMED.fields[0]);
  }

  lemma IntersectionRefused(env: Env)
    ensures Included(env, InterT([NAMED, AGED]), NAMED) && !IsAssignable(env, InterT([NAMED, AGED]), NAMED)
  {
    hide IsAssignable;
    var both := [NAMED, AGED];
    AgedHasNoName(env);
    FromIntersectionIff(env, both, NAMED);
    assert both[1] == AGED;
    forall v | HasType(env, v, InterT(both)) ensures HasType(env, v, NAMED) { assert HasType(env, v, both[0]); }
  }

  /** A map is refused where an object without any fields is expected, and an object with
      an index signature where an interface with the same one is. */
  lemma IndexedRefused(env: Env, e: Type, iface: string)
    requires iface in env.interfaces && env.interfaces[iface].index == Present(e)
    ensures var empty, indexed := ObjectT("", [], Absent), ObjectT("", [], Present(e));
      Included(env, MapT(e), empty) && !IsAssignable(env, MapT(e), empty)
      && Included(env, indexed, NominalT(InterfaceKind, iface))
      && !IsAssignable(env, indexed, NominalT(InterfaceKind, iface))
  {
    hide InstanceSatisfies;
    var empty, indexed := ObjectT("", [], Absent), ObjectT("", [], Present(e));
    forall v | HasType(env, v, MapT(e)) ensures HasType(env, v, empty) {
      MapIsNoInstance(env, v, MapT(e));
      RecordHasType(env, v, empty);
    }
    forall v | HasType(env, v, indexed) ensures HasType(env, v, NominalT(InterfaceKind, iface)) {
      RecordHasType(env, v, indexed);
    }
  }
}
