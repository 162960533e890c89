/** The checker's type algebra: structural type equality and union normalisation. */
module Types {

  datatype LiteralValue = LString(s: string) | LNumber(n: int)

  datatype NominalKind = StructKind | ClassKind | InterfaceKind | EnumKind

  /** A type position that may be empty: `void` results and absent index signatures. */
  datatype MaybeType = Absent | Present(ty: Type)

  datatype Field = Field(name: string, ty: Type, isReadonly: bool)

  datatype Type =
    | Prim(name: string)
    | ArrayT(element: Type)
    | TupleT(elements: seq<Type>)
    | UnionT(arms: seq<Type>)
    | InterT(arms: seq<Type>)
    | ObjectT(shapeName: string, fields: seq<Field>, index: MaybeType)
    | LiteralT(value: LiteralValue)
    | MapT(valueType: Type)
    | FunctionT(isAsync: bool, params: seq<Type>, ret: MaybeType)
    | FutureT(inner: MaybeType)
    | PtrT(pointee: MaybeType)
    | FnPtrT(params: seq<Type>, ret: MaybeType)
    | FixedArrayT(element: Type, length: nat)
    | TypeParamT(name: string, constraint: string)
    | NominalT(kind: NominalKind, name: string)

  const NULL_TYPE := Prim("null")

  /* ---------- Equality ---------- */

  predicate MaybeEqual(a: MaybeType, b: MaybeType)
    decreases a, 0
  {
    (a.Absent? && b.Absent?) || (a.Present? && b.Present? && TypesEqual(a.ty, b.ty))
  }

  predicate ListsEqual(xs: seq<Type>, ys: seq<Type>)
    decreases xs, 0
  {
    |xs| == |ys| && forall i | 0 <= i < |xs| :: TypesEqual(xs[i], ys[i])
  }

  predicate FieldsEqual(fs: seq<Field>, gs: seq<Field>)
    decreases fs, 0
  {
    |fs| == |gs| && forall i | 0 <= i < |fs| ::
      fs[i].name == gs[i].name && TypesEqual(fs[i].ty, gs[i].ty) && fs[i].isReadonly == gs[i].isReadonly
  }

  predicate TypesEqual(a: Type, b: Type)
    decreases a, 1
  {
    match a
    case Prim(x) => b.Prim? && x == b.name
    case ArrayT(x) => b.ArrayT? && TypesEqual(x, b.element)
    case TupleT(xs) => b.TupleT? && ListsEqual(xs, b.elements)
    case UnionT(xs) => b.UnionT? && ListsEqual(xs, b.arms)
    case InterT(xs) => b.InterT? && ListsEqual(xs, b.arms)
    case ObjectT(_, fs, ix) => b.ObjectT? && FieldsEqual(fs, b.fields) && MaybeEqual(ix, b.index)
    case LiteralT(v) => b.LiteralT? && v == b.value
    case MapT(x) => b.MapT? && TypesEqual(x, b.valueType)
    case FunctionT(isAsync, ps, r) =>
      b.FunctionT? && isAsync == b.isAsync && ListsEqual(ps, b.params) && MaybeEqual(r, b.ret)
    case FutureT(x) => b.FutureT? && MaybeEqual(x, b.inner)
    case PtrT(x) => b.PtrT? && MaybeEqual(x, b.pointee)
    case FnPtrT(ps, r) => b.FnPtrT? && ListsEqual(ps, b.params) && MaybeEqual(r, b.ret)
    case FixedArrayT(x, n) => b.FixedArrayT? && n == b.length && TypesEqual(x, b.element)
    case TypeParamT(n, _) => b.TypeParamT? && n == b.name
    case NominalT(k, n) => b.NominalT? && k == b.kind && n == b.name
  }

  function EraseMaybe(a: MaybeType): MaybeType
    decreases a, 0
  {
    match a case Absent => Absent case Present(t) => Present(Erase(t))
  }

  function EraseAll(xs: seq<Type>): (r: seq<Type>)
    ensures |r| == |xs|
    decreases xs, 0
  {
    seq(|xs|, i requires 0 <= i < |xs| => Erase(xs[i]))
  }

  function EraseFields(fs: seq<Field>): (r: seq<Field>)
    ensures |r| == |fs|
    decreases fs, 0
  {
    seq(|fs|, i requires 0 <= i < |fs| => fs[i].(ty := Erase(fs[i].ty)))
  }

  /** The part of a type that equality looks at: everything but the generated
      name of an object shape and the constraint of a type parameter. */
  function Erase(a: Type): Type
    decreases a, 1
  {
    match a
    case ArrayT(x) => ArrayT(Erase(x))
    case TupleT(xs) => TupleT(EraseAll(xs))
    case UnionT(xs) => UnionT(EraseAll(xs))
    case InterT(xs) => InterT(EraseAll(xs))
    case ObjectT(_, fs, ix) => ObjectT("", EraseFields(fs), EraseMaybe(ix))
    case MapT(x) => MapT(Erase(x))
    case FunctionT(isAsync, ps, r) => FunctionT(isAsync, EraseAll(ps), EraseMaybe(r))
    case FutureT(x) => FutureT(EraseMaybe(x))
    case PtrT(x) => PtrT(EraseMaybe(x))
    case FnPtrT(ps, r) => FnPtrT(EraseAll(ps), EraseMaybe(r))
    case FixedArrayT(x, n) => FixedArrayT(Erase(x), n)
    case TypeParamT(n, _) => TypeParamT(n, "")
    case Prim(_) => a
    case LiteralT(_) => a
    case NominalT(_, _) => a
  }

  lemma {:induction false} ListsEqualIffErased(xs: seq<Type>, ys: seq<Type>)
    ensures ListsEqual(xs, ys) <==> EraseAll(xs) == EraseAll(ys)
    decreases xs, 0
  {
    if |xs| == |ys| {
      forall i | 0 <= i < |xs| ensures TypesEqual(xs[i], ys[i]) <==> EraseAll(xs)[i] == EraseAll(ys)[i] {
        EqualIffErased(xs[i], ys[i]);
      }
    }
  }

  lemma {:induction false} FieldsEqualIffErased(fs: seq<Field>, gs: seq<Field>)
    ensures FieldsEqual(fs, gs) <==> EraseFields(fs) == EraseFields(gs)
    decreases fs, 0
  {
    if |fs| == |gs| {
      forall i | 0 <= i < |fs|
        ensures EraseFields(fs)[i] == EraseFields(gs)[i] <==>
          fs[i].name == gs[i].name && TypesEqual(fs[i].ty, gs[i].ty) && fs[i].isReadonly == gs[i].isReadonly
      {
        EqualIffErased(fs[i].ty, gs[i].ty);
      }
    }
  }

  lemma {:induction false} MaybeEqualIffErased(a: MaybeType, b: MaybeType)
    ensures MaybeEqual(a, b) <==> EraseMaybe(a) == EraseMaybe(b)
    decreases a, 0
  {
    if a.Present? && b.Present? { EqualIffErased(a.ty, b.ty); }
  }

  /** Structural equality is exactly equality of erasures. */
  lemma {:induction false} EqualIffErased(a: Type, b: Type)
    ensures TypesEqual(a, b) <==> Erase(a) == Erase(b)
    decreases a, 1
  {
    match a
    case ArrayT(x) => if b.ArrayT? { EqualIffErased(x, b.element); }
    case TupleT(xs) => if b.TupleT? { ListsEqualIffErased(xs, b.elements); }
    case UnionT(xs) => if b.UnionT? { ListsEqualIffErased(xs, b.arms); }
    case InterT(xs) => if b.InterT? { ListsEqualIffErased(xs, b.arms); }
    case ObjectT(_, fs, ix) =>
      if b.ObjectT? { MaybeEqualIffErased(ix, b.index); FieldsEqualIffErased(fs, b.fields); }
    case MapT(x) => if b.MapT? { EqualIffErased(x, b.valueType); }
    case FunctionT(_, ps, r) =>
      if b.FunctionT? { ListsEqualIffErased(ps, b.params); MaybeEqualIffErased(r, b.ret); }
    case FutureT(x) => if b.FutureT? { MaybeEqualIffErased(x, b.inner); }
    case PtrT(x) => if b.PtrT? { MaybeEqualIffErased(x, b.pointee); }
    case FnPtrT(ps, r) =>
      if b.FnPtrT? { ListsEqualIffErased(ps, b.params); MaybeEqualIffErased(r, b.ret); }
    case FixedArrayT(x, _) => if b.FixedArrayT? { EqualIffErased(x, b.element); }
    case _ =>
  }

  lemma EqualIsEquivalence(a: Type, b: Type, c: Type)
    ensures TypesEqual(a, a)
    ensures TypesEqual(a, b) <==> TypesEqual(b, a)
    ensures TypesEqual(a, b) && TypesEqual(b, c) ==> TypesEqual(a, c)
  {
    EqualIffErased(a, a);
    EqualIffErased(a, b);
    EqualIffErased(b, a);
    EqualIffErased(b, c);
    EqualIffErased(a, c);
  }

  lemma EqualRefl(a: Type)
    ensures TypesEqual(a, a)
  {
    EqualIffErased(a, a);
  }

  /* ---------- Unions ---------- */

  function Flatten(t: Type): (r: seq<Type>)
    ensures forall a | a in r :: !a.UnionT?
    ensures !t.UnionT? ==> r == [t]
    decreases t, 1
  {
    if t.UnionT? then FlattenAll(t.arms) else [t]
  }

  function FlattenAll(ts: seq<Type>): (r: seq<Type>)
    ensures forall a | a in r :: !a.UnionT?
    decreases ts, 0
  {
    if ts == [] then [] else Flatten(ts[0]) + FlattenAll(ts[1..])
  }

  /** `a` is a non-union part of `t`, however deep in unions. */
  predicate Leaf(a: Type, t: Type) {
    if t.UnionT? then exists i | 0 <= i < |t.arms| :: Leaf(a, t.arms[i]) else a == t
  }

  /** Flattening collects exactly the leaves. */
  lemma {:induction false} FlattenLeaves(a: Type, t: Type)
    ensures a in Flatten(t) <==> Leaf(a, t)
    decreases t, 1
  {
    if t.UnionT? { FlattenAllLeaves(a, t.arms); }
  }

  lemma {:induction false} FlattenAllLeaves(a: Type, ts: seq<Type>)
    ensures a in FlattenAll(ts) <==> exists i | 0 <= i < |ts| :: Leaf(a, ts[i])
    decreases ts, 0
  {
    if ts != [] {
      FlattenLeaves(a, ts[0]);
      FlattenAllLeaves(a, ts[1..]);
      if i :| 0 <= i < |ts| && Leaf(a, ts[i]) && i > 0 { assert Leaf(a, ts[1..][i - 1]); }
      if i :| 0 <= i < |ts[1..]| && Leaf(a, ts[1..][i]) { assert Leaf(a, ts[i + 1]); }
    }
  }

  /** Arm after arm. */
  lemma {:induction false} FlattenInOrder(xs: seq<Type>, ys: seq<Type>)
    ensures FlattenAll(xs + ys) == FlattenAll(xs) + FlattenAll(ys)
    decreases |xs|
  {
    if xs == [] {
      assert xs + ys == ys;
    } else {
      assert (xs + ys)[1..] == xs[1..] + ys;
      FlattenInOrder(xs[1..], ys);
    }
  }

  predicate Occurs(t: Type, ts: seq<Type>) {
    exists i | 0 <= i < |ts| :: TypesEqual(ts[i], t)
  }

  predicate Distinct(ts: seq<Type>) {
    forall i, j | 0 <= i < j < |ts| :: !TypesEqual(ts[i], ts[j])
  }

  function AddArm(unique: seq<Type>, arm: Type): seq<Type> {
    if Occurs(arm, unique) then unique else unique + [arm]
  }

  function AddArms(unique: seq<Type>, arms: seq<Type>): seq<Type>
    decreases |arms|
  {
    if arms == [] then unique else AddArms(AddArm(unique, arms[0]), arms[1..])
  }

  function OfArms(unique: seq<Type>): Type {
    if |unique| == 1 then unique[0] else UnionT(unique)
  }

  function MakeUnion(arms: seq<Type>): Type {
    OfArms(AddArms([], FlattenAll(arms)))
  }

  method BuildUnion(arms: seq<Type>) returns (r: Type)
    ensures r == MakeUnion(arms)
  {
    var flat := FlattenAll(arms);
    var unique: seq<Type> := [];
    var i := 0;
    while i < |flat|
      invariant 0 <= i <= |flat|
      invariant AddArms(unique, flat[i..]) == AddArms([], flat)
    {
      var arm := flat[i];
      assert flat[i..][0] == arm && flat[i..][1..] == flat[i + 1..];
      var seen := false;
      var j := 0;
      while j < |unique| && !seen
        invariant 0 <= j <= |unique|
        invariant seen ==> Occurs(arm, unique)
        invariant !seen ==> forall k | 0 <= k < j :: !TypesEqual(unique[k], arm)
      {
        seen := TypesEqual(unique[j], arm);
        j := j + 1;
      }
      if !seen {
        unique := unique + [arm];
      }
      i := i + 1;
    }
    assert flat[i..] == [];
    if |unique| == 1 {
      return unique[0];
    }
    return UnionT(unique);
  }

  /** What the loop leaves behind: no duplicates, nothing invented, nothing lost. */
  lemma {:induction false} AddArmsFacts(unique: seq<Type>, arms: seq<Type>)
    requires Distinct(unique)
    ensures var r := AddArms(unique, arms);
      Distinct(r)
      && (forall a | a in r :: a in unique || a in arms)
      && (forall a | a in unique || a in arms :: Occurs(a, r))
    decreases |arms|
  {
    var r := AddArms(unique, arms);
    if arms == [] {
      forall a | a in unique ensures Occurs(a, r) {
        EqualRefl(a);
      }
    } else {
      var next := AddArm(unique, arms[0]);
      AddArmsFacts(next, arms[1..]);
      forall a | a in unique || a in arms ensures Occurs(a, r) {
        if a != arms[0] || !Occurs(arms[0], unique) {
          assert a in next || a in arms[1..];
        } else {
          var i :| 0 <= i < |unique| && TypesEqual(unique[i], a);
          assert unique[i] in next;
          var j :| 0 <= j < |r| && TypesEqual(r[j], unique[i]);
          EqualIsEquivalence(r[j], unique[i], a);
        }
      }
    }
  }

  lemma {:induction false} AddArmsOfDistinct(unique: seq<Type>, arms: seq<Type>)
    requires Distinct(unique + arms)
    ensures AddArms(unique, arms) == unique + arms
    decreases |arms|
  {
    if arms == [] {
      assert unique + arms == unique;
    } else {
      forall i | 0 <= i < |unique| ensures !TypesEqual(unique[i], arms[0]) {
        var both := unique + arms;
        assert both[i] == unique[i] && both[|unique|] == arms[0];
      }
      assert unique + [arms[0]] + arms[1..] == unique + arms;
      AddArmsOfDistinct(unique + [arms[0]], arms[1..]);
    }
  }

  lemma {:induction false} FlattenAllOfFlat(ts: seq<Type>)
    requires forall t | t in ts :: !t.UnionT?
    ensures FlattenAll(ts) == ts
  {
    if ts != [] { FlattenAllOfFlat(ts[1..]); }
  }

  /** The arms of a made union are the flattened inputs without repetition. */
  lemma MadeUnionArms(arms: seq<Type>)
    ensures Flatten(MakeUnion(arms)) == AddArms([], FlattenAll(arms))
  {
    var u := AddArms([], FlattenAll(arms));
    AddArmsFacts([], FlattenAll(arms));
    FlattenAllOfFlat(u);
  }

  /** makeUnion is a normal form: flat, duplicate free, with exactly the arms of
      its inputs up to equality, and rebuilding it from its own arms changes nothing. */
  lemma MakeUnionNormal(arms: seq<Type>)
    ensures var r := Flatten(MakeUnion(arms));
      Distinct(r)
      && (MakeUnion(arms).UnionT? ==> MakeUnion(arms).arms == r && |r| != 1)
      && (forall a | a in r :: a in FlattenAll(arms))
      && (forall a | a in FlattenAll(arms) :: Occurs(a, r))
      && MakeUnion(r) == MakeUnion(arms)
  {
    var u := AddArms([], FlattenAll(arms));
    MadeUnionArms(arms);
    AddArmsFacts([], FlattenAll(arms));
    FlattenAllOfFlat(u);
    assert [] + u == u;
    AddArmsOfDistinct([], u);
  }
}
