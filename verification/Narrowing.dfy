/** Narrowing facts: what a condition says about variables, and the types it leaves them. */
module Narrowing {
  import opened Common
  import opened Types
  import opened Assignability

  /* ---------- The meaning of flattened and made unions ---------- */

  ghost predicate InSome(env: Env, v: Value, ts: seq<Type>) {
    exists i | 0 <= i < |ts| :: HasType(env, v, ts[i])
  }

  lemma InSomeConcat(env: Env, v: Value, a: seq<Type>, b: seq<Type>)
    ensures InSome(env, v, a + b) <==> InSome(env, v, a) || InSome(env, v, b)
  {
    hide HasType;
    if InSome(env, v, a) {
      var i :| 0 <= i < |a| && HasType(env, v, a[i]);
      assert (a + b)[i] == a[i];
    }
    if InSome(env, v, b) {
      var i :| 0 <= i < |b| && HasType(env, v, b[i]);
      assert (a + b)[|a| + i] == b[i];
    }
  }

  lemma {:induction false} FlattenMeaning(env: Env, v: Value, t: Type)
    ensures HasType(env, v, t) <==> InSome(env, v, Flatten(t))
    decreases t, 1
  {
    if t.UnionT? {
      FlattenAllMeaning(env, v, t.arms);
    } else {
      assert [t][0] == t;
    }
  }

  lemma {:induction false} FlattenAllMeaning(env: Env, v: Value, ts: seq<Type>)
    ensures InSome(env, v, FlattenAll(ts)) <==> InSome(env, v, ts)
    decreases ts, 0
  {
    hide HasType;
    if ts != [] {
      FlattenMeaning(env, v, ts[0]);
      FlattenAllMeaning(env, v, ts[1..]);
      InSomeConcat(env, v, Flatten(ts[0]), FlattenAll(ts[1..]));
      InSomeConcat(env, v, [ts[0]], ts[1..]);
      assert [ts[0]] + ts[1..] == ts;
      assert InSome(env, v, [ts[0]]) <==> HasType(env, v, ts[0]) by { assert [ts[0]][0] == ts[0]; }
    }
  }

  /** A made union denotes exactly the union of its inputs. */
  lemma MakeUnionMeaning(env: Env, v: Value, arms: seq<Type>)
    ensures HasType(env, v, MakeUnion(arms)) <==> InSome(env, v, arms)
  {
    hide HasType;
    var made := Flatten(MakeUnion(arms));
    MakeUnionNormal(arms);
    FlattenMeaning(env, v, MakeUnion(arms));
    FlattenAllMeaning(env, v, arms);
    if InSome(env, v, made) {
      var i :| 0 <= i < |made| && HasType(env, v, made[i]);
      assert made[i] in FlattenAll(arms);
    }
    if InSome(env, v, FlattenAll(arms)) {
      var i :| 0 <= i < |FlattenAll(arms)| && HasType(env, v, FlattenAll(arms)[i]);
      assert Occurs(FlattenAll(arms)[i], made);
      var j :| 0 <= j < |made| && TypesEqual(made[j], FlattenAll(arms)[i]);
      EqualTypesSameValues(env, v, made[j], FlattenAll(arms)[i]);
    }
  }

  /* ---------- Narrowing one type ---------- */

  function TypeofTag(t: Type): Option<string> {
    match t
    case Prim(p) =>
      if p in ["null", "string", "bool", "char", "i32", "i64", "f32", "f64"] then Some(p) else None
    case LiteralT(LString(_)) => Some("string")
    case LiteralT(LNumber(_)) => Some("i32")
    case NominalT(_, _) => Some("object")
    case ArrayT(_) => Some("object")
    case TupleT(_) => Some("object")
    case ObjectT(_, _, _) => Some("object")
    case MapT(_) => Some("object")
    case _ => None
  }

  /** The tag a value reports; values without a tag of their own report "object", and
      a zeroed slot reports the tag numbered 0. */
  function RuntimeTag(v: Value): string {
    match v
    case VNull => "null"
    case VString(_) => "string"
    case VBool(_) => "bool"
    case VScalar(p, _) => if p in ["char", "i32", "i64", "f32", "f64"] then p else "object"
    case VUnset => "string"
    case _ => "object"
  }

  /** The tag under which values of a type are boxed into a union. */
  function UnionTag(t: Type): string {
    if TypeofTag(t).Some? then TypeofTag(t).value else "object"
  }

  predicate IsClass(t: Type) {
    t.NominalT? && t.kind == ClassKind
  }

  /** What `v is T` computes on a value boxed with its tag: a null test, an instance
      test, or else no more than a comparison of tags. */
  predicate IsTest(env: Env, v: Value, target: Type) {
    if target == NULL_TYPE then v == VNull
    else if IsClass(target) then HasType(env, v, target)
    else RuntimeTag(v) == UnionTag(target)
  }

  function Keep(arms: seq<Type>, p: Type -> bool): (r: seq<Type>)
    ensures forall a :: a in r <==> a in arms && p(a)
  {
    if arms == [] then [] else (if p(arms[0]) then [arms[0]] else []) + Keep(arms[1..], p)
  }

  function NarrowByTypeof(t: Type, tag: string, positive: bool): Type {
    var matched := Keep(Flatten(t), (arm: Type) => (TypeofTag(arm) == Some(tag)) == positive);
    if matched == [] then t else MakeUnion(matched)
  }

  function StripNull(t: Type): Type {
    var arms := Keep(Flatten(t), (arm: Type) => arm != NULL_TYPE);
    if arms == [] then NULL_TYPE else MakeUnion(arms)
  }

  function NarrowByNull(t: Type, isNotNull: bool): Type {
    if isNotNull then StripNull(t) else NULL_TYPE
  }

  function NarrowByIs(t: Type, target: Type, positive: bool): Type {
    if target == NULL_TYPE then NarrowByNull(t, !positive)
    else
      var kept := Keep(Flatten(t), (arm: Type) => TypesEqual(arm, target) == positive);
      if kept == [] then t else MakeUnion(kept)
  }

  datatype Fact =
    | TypeofFact(name: string, tag: string, positive: bool)
    | NullFact(name: string, isNotNull: bool)
    | IsFact(name: string, target: Type, positive: bool)

  function Narrow(t: Type, f: Fact): Type {
    match f
    case TypeofFact(_, tag, positive) => NarrowByTypeof(t, tag, positive)
    case NullFact(_, isNotNull) => NarrowByNull(t, isNotNull)
    case IsFact(_, target, positive) => NarrowByIs(t, target, positive)
  }

  /** The fact is true of the value. */
  predicate FactTrue(env: Env, f: Fact, v: Value) {
    match f
    case TypeofFact(_, tag, positive) => (RuntimeTag(v) == tag) == positive
    case NullFact(_, isNotNull) => (v != VNull) == isNotNull
    case IsFact(_, target, positive) => IsTest(env, v, target) == positive
  }

  /* ---------- Soundness of one narrowing step ---------- */

  lemma KeptArms(env: Env, v: Value, arms: seq<Type>, p: Type -> bool)
    ensures InSome(env, v, Keep(arms, p)) <==> exists i | 0 <= i < |arms| :: p(arms[i]) && HasType(env, v, arms[i])
  {
    hide HasType;
    var r := Keep(arms, p);
    if i :| 0 <= i < |arms| && p(arms[i]) && HasType(env, v, arms[i]) {
      assert arms[i] in r;
      var j :| 0 <= j < |r| && r[j] == arms[i];
      assert HasType(env, v, r[j]);
    }
    if InSome(env, v, r) {
      var j :| 0 <= j < |r| && HasType(env, v, r[j]);
      assert r[j] in arms;
      var i :| 0 <= i < |arms| && arms[i] == r[j];
      assert p(arms[i]) && HasType(env, v, arms[i]);
    }
  }

  lemma TaggedArmReportsTag(env: Env, v: Value, arm: Type)
    requires HasType(env, v, arm) && TypeofTag(arm).Some?
    ensures RuntimeTag(v) == TypeofTag(arm).value
  {
  }

  lemma UntaggedArmReportsObject(env: Env, v: Value, arm: Type)
    requires HasType(env, v, arm) && TypeofTag(arm).None? && !arm.UnionT? && !arm.InterT?
    ensures RuntimeTag(v) == "object" || v == VNull
  {
  }

  /** No arm can report `tag` without carrying it: only "object" has values of
      untagged arms behind it, and an intersection can report any tag. */
  predicate TagGuard(t: Type, tag: string) {
    (forall i | 0 <= i < |Flatten(t)| ::
       TypeofTag(Flatten(t)[i]).Some? || (tag != "object" && !Flatten(t)[i].InterT?))
    || (forall i | 0 <= i < |Flatten(t)| :: TypeofTag(Flatten(t)[i]) != Some(tag))
  }

  /** The arm has no value that passes a tag test for `target` without being of that type. */
  predicate ArmFits(arm: Type, target: Type) {
    TypesEqual(arm, target) || (arm.LiteralT? && TypesEqual(LiteralBase(arm.value), target))
    || (!arm.InterT? && UnionTag(arm) != UnionTag(target))
  }

  /** Where a tag test decides membership: a test that succeeds must exclude the other
      arms, and one that fails must exclude the tested arm. */
  predicate IsGuard(t: Type, target: Type, positive: bool) {
    target == NULL_TYPE || IsClass(target)
    || (forall i | 0 <= i < |Flatten(t)| :: !TypesEqual(Flatten(t)[i], target))
    || if positive then forall i | 0 <= i < |Flatten(t)| :: ArmFits(Flatten(t)[i], target)
       else !target.InterT? && !target.PtrT?
  }

  predicate FactGuard(t: Type, f: Fact) {
    match f
    case TypeofFact(_, tag, positive) => positive ==> TagGuard(t, tag)
    case NullFact(_, _) => true
    case IsFact(_, target, positive) => IsGuard(t, target, positive)
  }

  lemma TypeofSound(env: Env, v: Value, t: Type, tag: string, positive: bool)
    requires HasType(env, v, t) && (RuntimeTag(v) == tag) == positive && (positive ==> TagGuard(t, tag))
    ensures HasType(env, v, NarrowByTypeof(t, tag, positive))
  {
    hide HasType, TagGuard, RuntimeTag, TypeofTag;
    var arms := Flatten(t);
    var p := (arm: Type) => (TypeofTag(arm) == Some(tag)) == positive;
    var matched := Keep(arms, p);
    FlattenMeaning(env, v, t);
    KeptArms(env, v, arms, p);
    MakeUnionMeaning(env, v, matched);
    if matched != [] { SomeArmIsKept(env, v, t, tag, positive, p); }
  }

  lemma SomeArmIsKept(env: Env, v: Value, t: Type, tag: string, positive: bool, p: Type -> bool)
    requires InSome(env, v, Flatten(t)) && (RuntimeTag(v) == tag) == positive && (positive ==> TagGuard(t, tag))
    requires Keep(Flatten(t), p) != [] && forall arm :: p(arm) <==> (TypeofTag(arm) == Some(tag)) == positive
    ensures InSome(env, v, Keep(Flatten(t), p))
  {
    hide HasType, RuntimeTag, TypeofTag, Flatten;
    var arms, matched := Flatten(t), Keep(Flatten(t), p);
    KeptArms(env, v, arms, p);
    var i :| 0 <= i < |arms| && HasType(env, v, arms[i]);
    if TypeofTag(arms[i]).Some? {
      TaggedArmReportsTag(env, v, arms[i]);
    } else if positive {
      assert matched[0] in arms && p(matched[0]);
      var j :| 0 <= j < |arms| && arms[j] == matched[0];
      assert TypeofTag(arms[j]) == Some(tag);
      UntaggedNullIsKept(env, v, arms, i, tag, matched);
    }
  }

  /** The one value an untagged arm can report a listed tag with is a null pointer. */
  lemma UntaggedNullIsKept(env: Env, v: Value, arms: seq<Type>, i: nat, tag: string, matched: seq<Type>)
    requires i < |arms| && HasType(env, v, arms[i]) && TypeofTag(arms[i]).None? && RuntimeTag(v) == tag
    requires !arms[i].UnionT? && !arms[i].InterT? && tag != "object"
    requires matched != [] && forall a | a in matched :: TypeofTag(a) == Some(tag)
    ensures InSome(env, v, matched)
  {
    UntaggedArmReportsObject(env, v, arms[i]);
    assert matched[0] in matched;
    assert HasType(env, v, matched[0]);
  }

  lemma NullSound(env: Env, v: Value, t: Type, isNotNull: bool)
    requires HasType(env, v, t) && (v != VNull) == isNotNull
    ensures HasType(env, v, NarrowByNull(t, isNotNull))
  {
    if isNotNull {
      var p := (arm: Type) => arm != NULL_TYPE;
      FlattenMeaning(env, v, t);
      KeptArms(env, v, Flatten(t), p);
      MakeUnionMeaning(env, v, Keep(Flatten(t), p));
      var i :| 0 <= i < |Flatten(t)| && HasType(env, v, Flatten(t)[i]);
      assert p(Flatten(t)[i]);
    }
  }

  /** A value of a type boxed under a tag reports it, null pointers apart. */
  lemma ValueReportsTag(env: Env, v: Value, arm: Type)
    requires HasType(env, v, arm) && !arm.UnionT? && !arm.InterT?
    ensures RuntimeTag(v) == UnionTag(arm) || (arm.PtrT? && v == VNull)
  {
  }

  lemma IsSound(env: Env, v: Value, t: Type, target: Type, positive: bool)
    requires HasType(env, v, t) && IsTest(env, v, target) == positive && IsGuard(t, target, positive)
    ensures HasType(env, v, NarrowByIs(t, target, positive))
  {
    if target == NULL_TYPE {
      NullSound(env, v, t, !positive);
    } else {
      hide HasType, TypesEqual, IsGuard, IsTest;
      var p := (arm: Type) => TypesEqual(arm, target) == positive;
      var kept := Keep(Flatten(t), p);
      MakeUnionMeaning(env, v, kept);
      if kept != [] { IsKept(env, v, t, target, positive, p); }
    }
  }

  lemma IsKept(env: Env, v: Value, t: Type, target: Type, positive: bool, p: Type -> bool)
    requires HasType(env, v, t) && IsTest(env, v, target) == positive && IsGuard(t, target, positive)
    requires target != NULL_TYPE
    requires (forall arm :: p(arm) <==> TypesEqual(arm, target) == positive) && Keep(Flatten(t), p) != []
    ensures InSome(env, v, Keep(Flatten(t), p))
  {
    hide HasType, TypesEqual, UnionTag, RuntimeTag, Flatten, ArmFits;
    var arms, kept := Flatten(t), Keep(Flatten(t), p);
    FlattenMeaning(env, v, t);
    KeptArms(env, v, arms, p);
    var i: nat :| i < |arms| && HasType(env, v, arms[i]);
    assert kept[0] in kept && p(kept[0]);
    var k: nat :| k < |arms| && arms[k] == kept[0];
    if positive {
      EqualTypesSameValues(env, v, kept[0], target);
      if !IsClass(target) { FittingArm(env, v, arms[i], target); }
    } else if TypesEqual(arms[i], target) {
      EqualTypesSameValues(env, v, arms[i], target);
      if !IsClass(target) { ReportsTarget(env, v, arms[i], target); }
    }
  }

  lemma FittingArm(env: Env, v: Value, arm: Type, target: Type)
    requires HasType(env, v, arm) && RuntimeTag(v) == UnionTag(target) && ArmFits(arm, target)
    requires !arm.UnionT? && target != NULL_TYPE
    ensures HasType(env, v, target)
  {
    hide HasType, TypesEqual, RuntimeTag, UnionTag;
    if TypesEqual(arm, target) {
      EqualTypesSameValues(env, v, arm, target);
    } else if arm.LiteralT? && TypesEqual(LiteralBase(arm.value), target) {
      LiteralIsBase(env, arm, v);
      EqualTypesSameValues(env, v, LiteralBase(arm.value), target);
    } else {
      ValueReportsTag(env, v, arm);
      OnlyNullIsNull(target);
    }
  }

  lemma OnlyNullIsNull(target: Type)
    requires target != NULL_TYPE
    ensures UnionTag(target) != "null" && RuntimeTag(VNull) == "null"
  {
  }

  lemma ReportsTarget(env: Env, v: Value, arm: Type, target: Type)
    requires HasType(env, v, arm) && TypesEqual(arm, target) && !arm.UnionT? && !target.InterT? && !target.PtrT?
    ensures RuntimeTag(v) == UnionTag(target)
  {
    hide HasType;
    ValueReportsTag(env, v, arm);
  }

  /** A true fact keeps the value inside the narrowed type. */
  lemma NarrowSound(env: Env, v: Value, t: Type, f: Fact)
    requires HasType(env, v, t) && FactTrue(env, f, v) && FactGuard(t, f)
    ensures HasType(env, v, Narrow(t, f))
  {
    hide HasType, TagGuard, IsGuard, IsTest, NarrowByTypeof, NarrowByNull, NarrowByIs;
    match f
    case TypeofFact(_, tag, positive) => TypeofSound(env, v, t, tag, positive);
    case NullFact(_, isNotNull) => NullSound(env, v, t, isNotNull);
    case IsFact(_, target, positive) => IsSound(env, v, t, target, positive);
  }

  /** The guard is exact when no arm is an intersection: without it, some value with
      the tested tag falls outside the narrowed type. */
  lemma TagGuardIsExact(env: Env, t: Type, tag: string)
    requires forall i | 0 <= i < |Flatten(t)| :: !Flatten(t)[i].InterT?
    ensures TagGuard(t, tag) <==>
      forall v :: HasType(env, v, t) && RuntimeTag(v) == tag ==> HasType(env, v, NarrowByTypeof(t, tag, true))
  {
    hide HasType, NarrowByTypeof;
    if TagGuard(t, tag) {
      forall v | HasType(env, v, t) && RuntimeTag(v) == tag ensures HasType(env, v, NarrowByTypeof(t, tag, true)) {
        TypeofSound(env, v, t, tag, true);
      }
    } else {
      var i :| 0 <= i < |Flatten(t)| && TypeofTag(Flatten(t)[i]).None?;
      var v := UntaggedValue(env, Flatten(t)[i]);
      assert InSome(env, v, Flatten(t));
      FlattenMeaning(env, v, t);
      UntaggedValueIsDropped(env, v, t);
    }
  }

  lemma UntaggedValue(env: Env, arm: Type) returns (v: Value)
    requires TypeofTag(arm).None? && !arm.UnionT? && !arm.InterT?
    ensures HasType(env, v, arm) && RuntimeTag(v) == "object"
    ensures v.VScalar? || v.VFunction? || v.VFuture? || v.VPointer? || v.VFixed? || v.VOpaque?
  {
    EqualRefl(arm);
    match arm
    case Prim(p) => v := VScalar(p, 0);
    case FunctionT(_, _, _) => v := VFunction(arm);
    case FutureT(_) => v := VFuture(Pending);
    case PtrT(_) => v := VPointer(arm);
    case FnPtrT(_, _) => v := VPointer(arm);
    case FixedArrayT(_, _) => v := VFixed(arm);
    case TypeParamT(n, _) => v := VOpaque(n);
  }

  lemma ObjectArmsExclude(env: Env, v: Value, arm: Type)
    requires v.VScalar? || v.VFunction? || v.VFuture? || v.VPointer? || v.VFixed? || v.VOpaque?
    requires TypeofTag(arm) == Some("object")
    ensures !HasType(env, v, arm)
  {
  }

  lemma UntaggedValueIsDropped(env: Env, v: Value, t: Type)
    requires v.VScalar? || v.VFunction? || v.VFuture? || v.VPointer? || v.VFixed? || v.VOpaque?
    requires exists i | 0 <= i < |Flatten(t)| :: TypeofTag(Flatten(t)[i]) == Some("object")
    ensures !HasType(env, v, NarrowByTypeof(t, "object", true))
  {
    hide HasType, TypeofTag;
    var p := (arm: Type) => (TypeofTag(arm) == Some("object")) == true;
    var matched := Keep(Flatten(t), p);
    var i :| 0 <= i < |Flatten(t)| && TypeofTag(Flatten(t)[i]) == Some("object");
    assert p(Flatten(t)[i]);
    assert Flatten(t)[i] in matched;
    MakeUnionMeaning(env, v, matched);
    forall k | 0 <= k < |matched| ensures !HasType(env, v, matched[k]) {
      assert matched[k] in matched && p(matched[k]);
      ObjectArmsExclude(env, v, matched[k]);
    }
  }

  /** Arms whose values nothing but their type decides. */
  predicate SimpleArm(arm: Type) {
    arm.Prim? || arm.LiteralT? || (arm.NominalT? && (arm.kind == StructKind || arm.kind == EnumKind))
    || arm.FunctionT? || arm.FnPtrT? || arm.FixedArrayT? || arm.TypeParamT?
  }

  lemma MisfitScalar(env: Env, p: string, target: Type) returns (v: Value)
    requires SimpleArm(target) && target != NULL_TYPE && !ArmFits(Prim(p), target)
    ensures HasType(env, v, Prim(p)) && RuntimeTag(v) == UnionTag(target) && !HasType(env, v, target)
  {
    if p == "string" {
      v := VString(if target.LiteralT? then target.value.s + "'" else "");
      if target.LiteralT? { assert |v.s| == |target.value.s| + 1; }
    } else {
      v := VScalar(p, if target.LiteralT? then target.value.n + 1 else 0);
    }
  }

  lemma MisfitLiteral(env: Env, v: Value, arm: Type, target: Type)
    requires arm.LiteralT? && HasType(env, v, arm) && SimpleArm(target) && target != NULL_TYPE && !ArmFits(arm, target)
    ensures RuntimeTag(v) == UnionTag(target) && !HasType(env, v, target)
  {
  }

  lemma MisfitValue(env: Env, arm: Type, target: Type) returns (v: Value)
    requires SimpleArm(arm) && SimpleArm(target) && target != NULL_TYPE && !ArmFits(arm, target)
    ensures HasType(env, v, arm) && RuntimeTag(v) == UnionTag(target) && !HasType(env, v, target)
  {
    if arm.Prim? {
      v := MisfitScalar(env, arm.name, target);
    } else if arm.LiteralT? {
      v := if arm.value.LString? then VString(arm.value.s) else VScalar("i32", arm.value.n);
      MisfitLiteral(env, v, arm, target);
    } else {
      EqualRefl(arm);
      match arm
      case NominalT(k, n) => v := VNominal(k, n);
      case FunctionT(_, _, _) => v := VFunction(arm);
      case FnPtrT(_, _) => v := VPointer(arm);
      case FixedArrayT(_, _) => v := VFixed(arm);
      case TypeParamT(n, _) => v := VOpaque(n);
    }
  }

  /** A tag test narrows rightly where it succeeds if and only if every arm that shares
      the tested type's tag is that type or a literal of it; where it fails it always does. */
  lemma IsGuardIsExact(env: Env, t: Type, target: Type)
    requires target != NULL_TYPE && !IsClass(target) && forall i | 0 <= i < |Flatten(t)| :: SimpleArm(Flatten(t)[i])
    ensures IsGuard(t, target, true) <==>
      forall v :: HasType(env, v, t) && IsTest(env, v, target) ==> HasType(env, v, NarrowByIs(t, target, true))
    ensures forall v :: HasType(env, v, t) && !IsTest(env, v, target) ==> HasType(env, v, NarrowByIs(t, target, false))
  {
    hide HasType, NarrowByIs, IsTest, ArmFits, TypesEqual;
    forall v | HasType(env, v, t) && !IsTest(env, v, target) ensures HasType(env, v, NarrowByIs(t, target, false)) {
      SimpleTarget(t, target);
      IsSound(env, v, t, target, false);
    }
    if IsGuard(t, target, true) {
      forall v | HasType(env, v, t) && IsTest(env, v, target) ensures HasType(env, v, NarrowByIs(t, target, true)) {
        IsSound(env, v, t, target, true);
      }
    } else {
      var i :| 0 <= i < |Flatten(t)| && !ArmFits(Flatten(t)[i], target);
      var k :| 0 <= k < |Flatten(t)| && TypesEqual(Flatten(t)[k], target);
      EqualShape(Flatten(t)[k], target);
      var v := MisfitValue(env, Flatten(t)[i], target);
      assert InSome(env, v, Flatten(t));
      FlattenMeaning(env, v, t);
      MisfitIsDropped(env, v, t, target);
      assert IsTest(env, v, target) by { TagTest(env, v, target); }
    }
  }

  lemma EqualShape(arm: Type, target: Type)
    requires SimpleArm(arm) && TypesEqual(arm, target)
    ensures SimpleArm(target)
  {
  }

  lemma SimpleTarget(t: Type, target: Type)
    requires target != NULL_TYPE && !IsClass(target) && forall i | 0 <= i < |Flatten(t)| :: SimpleArm(Flatten(t)[i])
    ensures IsGuard(t, target, false)
  {
    hide Flatten, TypesEqual;
    if i :| 0 <= i < |Flatten(t)| && TypesEqual(Flatten(t)[i], target) { EqualShape(Flatten(t)[i], target); }
  }

  lemma TagTest(env: Env, v: Value, target: Type)
    requires target != NULL_TYPE && !IsClass(target)
    ensures IsTest(env, v, target) <==> RuntimeTag(v) == UnionTag(target)
  {
  }

  lemma MisfitIsDropped(env: Env, v: Value, t: Type, target: Type)
    requires target != NULL_TYPE && !HasType(env, v, target)
    requires exists k | 0 <= k < |Flatten(t)| :: TypesEqual(Flatten(t)[k], target)
    ensures !HasType(env, v, NarrowByIs(t, target, true))
  {
    hide HasType, TypesEqual, Flatten, MakeUnion, Keep, InSome;
    var p := (arm: Type) => TypesEqual(arm, target) == true;
    var kept := Keep(Flatten(t), p);
    var k :| 0 <= k < |Flatten(t)| && TypesEqual(Flatten(t)[k], target);
    assert p(Flatten(t)[k]);
    assert Flatten(t)[k] in kept;
    MakeUnionMeaning(env, v, kept);
    forall j | 0 <= j < |kept| ensures !HasType(env, v, kept[j]) {
      assert kept[j] in kept && p(kept[j]);
      EqualTypesSameValues(env, v, kept[j], target);
    }
    InNone(env, v, kept);
  }

  lemma InNone(env: Env, v: Value, ts: seq<Type>)
    requires forall i | 0 <= i < |ts| :: !HasType(env, v, ts[i])
    ensures !InSome(env, v, ts)
  {
    hide HasType;
  }

  const LIT_A := LiteralT(LString("a"))
  const LIT_B := LiteralT(LString("b"))

  lemma TestedLiteral()
    ensures Narrow(UnionT([LIT_A, LIT_B]), IsFact("x", LIT_A, true)) == LIT_A
  {
    hide HasType;
    var p := (arm: Type) => TypesEqual(arm, LIT_A) == true;
    var arms := [LIT_A, LIT_B];
    assert arms[1..] == [LIT_B] && [LIT_B][1..] == [];
    assert FlattenAll([LIT_B]) == [LIT_B] && FlattenAll(arms) == [LIT_A] + [LIT_B] == arms;
    assert Keep([LIT_B], p) == Keep([], p) == [];
    assert Keep(arms, p) == [LIT_A];
    MadeOfOne(LIT_A);
  }

  lemma MadeOfOne(arm: Type)
    requires !arm.UnionT?
    ensures MakeUnion([arm]) == arm
  {
    FlattenAllOfFlat([arm]);
    AddArmsOfDistinct([], [arm]);
    assert [] + [arm] == [arm];
  }

  /** Two string literals share a tag: testing for the one admits the other. */
  lemma LiteralTestUnsound(env: Env)
    ensures var t, v, f := UnionT([LIT_A, LIT_B]), VString("b"), IsFact("x", LIT_A, true);
      HasType(env, v, t) && FactTrue(env, f, v) && !HasType(env, v, Narrow(t, f))
  {
    hide Narrow;
    var t := UnionT([LIT_A, LIT_B]);
    assert t.arms[1] == LIT_B;
    TestedLiteral();
  }

  /* ---------- Tests of variables by the way they are stored ---------- */

  const VALUE_PRIMS := ["i8", "i16", "i32", "i64", "u8", "u16", "u32", "u64", "isize", "usize", "f32", "f64", "bool", "char"]

  /** Types whose values are heap references; a literal string is one too. */
  predicate IsReference(t: Type) {
    match t
    case Prim(p) => p !in VALUE_PRIMS
    case NominalT(k, _) => k == ClassKind
    case LiteralT(v) => v.LString?
    case UnionT(arms) => exists i | 0 <= i < |arms| :: IsReference(arms[i])
    case InterT(arms) => exists i | 0 <= i < |arms| :: IsReference(arms[i])
    case _ => t.ArrayT? || t.MapT? || t.FunctionT? || t.FutureT?
  }

  predicate SinglePointer(t: Type) {
    IsReference(t) && !t.FunctionT?
  }

  /** Unions of null and single-pointer references are lowered to one pointer, without a
      tag; all other unions to a tag and a payload. */
  predicate NullablePointer(t: Type) {
    var arms := Flatten(t);
    t.UnionT? && NULL_TYPE in arms && (exists i | 0 <= i < |arms| :: arms[i] != NULL_TYPE)
    && forall i | 0 <= i < |arms| :: arms[i] == NULL_TYPE || SinglePointer(arms[i])
  }

  /** `typeof` of a variable with the given stored type: a pointer is told from null only,
      a boxed value by its tag, and any other type is known beforehand. */
  function TypeofValue(stored: Type, v: Value): string {
    if NullablePointer(stored) then if v == VNull then "null" else "object"
    else if stored.UnionT? then RuntimeTag(v)
    else UnionTag(stored)
  }

  predicate SomeArmTagged(t: Type, tag: string) {
    exists i | 0 <= i < |Flatten(t)| :: Flatten(t)[i] != NULL_TYPE && UnionTag(Flatten(t)[i]) == tag
  }

  /** `is` of a variable with the given stored type. */
  predicate IsValue(env: Env, stored: Type, v: Value, target: Type) {
    if target == NULL_TYPE then (stored.UnionT? || stored == NULL_TYPE || SinglePointer(stored)) && v == VNull
    else if IsClass(target) && (stored.UnionT? || IsClass(stored)) then HasType(env, v, target)
    else if NullablePointer(stored) then v != VNull && SomeArmTagged(stored, UnionTag(target))
    else if stored.UnionT? then RuntimeTag(v) == UnionTag(target)
    else UnionTag(stored) == UnionTag(target)
  }

  /** Every arm has this tag, or is null where that is allowed. */
  predicate AllTagged(t: Type, tag: string, orNull: bool) {
    forall i | 0 <= i < |Flatten(t)| ::
      (orNull && Flatten(t)[i] == NULL_TYPE)
      || (UnionTag(Flatten(t)[i]) == tag && !Flatten(t)[i].InterT? && !Flatten(t)[i].PtrT?)
  }

  lemma TaggedValue(env: Env, v: Value, t: Type, tag: string, orNull: bool)
    requires HasType(env, v, t) && AllTagged(t, tag, orNull)
    ensures RuntimeTag(v) == tag || (orNull && v == VNull)
  {
    hide HasType, RuntimeTag, UnionTag;
    FlattenMeaning(env, v, t);
    var i :| 0 <= i < |Flatten(t)| && HasType(env, v, Flatten(t)[i]);
    if Flatten(t)[i] == NULL_TYPE { NullValue(env, v); }
    ValueReportsTag(env, v, Flatten(t)[i]);
  }

  lemma NullValue(env: Env, v: Value)
    ensures HasType(env, v, NULL_TYPE) <==> v == VNull
    ensures RuntimeTag(v) == "null" <==> v == VNull
    ensures UnionTag(NULL_TYPE) == "null"
  {
  }

  /** Whether `typeof` of a variable stored as `stored` that now has type `t` gives the
      tag is decided as if it were boxed: on a pointer for "null", for a tag no arm has, and
      for any tag where all arms are objects. */
  predicate PlainTypeof(stored: Type, t: Type, tag: string) {
    if NullablePointer(stored) then
      tag == "null" || AllTagged(t, "object", true) || (tag != "object" && NoneTagged(t, tag))
    else stored.UnionT? || AllTagged(t, UnionTag(stored), false)
  }

  predicate NoneTagged(t: Type, tag: string) {
    forall i | 0 <= i < |Flatten(t)| :: UnionTag(Flatten(t)[i]) != tag && !Flatten(t)[i].InterT?
  }

  lemma UntaggedValues(env: Env, v: Value, t: Type, tag: string)
    requires HasType(env, v, t) && NoneTagged(t, tag) && tag != "null"
    ensures RuntimeTag(v) != tag
  {
    hide HasType, RuntimeTag, UnionTag;
    NullValue(env, v);
    FlattenMeaning(env, v, t);
    var i :| 0 <= i < |Flatten(t)| && HasType(env, v, Flatten(t)[i]);
    ValueReportsTag(env, v, Flatten(t)[i]);
  }

  predicate PlainIs(stored: Type, t: Type, target: Type) {
    if target == NULL_TYPE then
      stored.UnionT? || stored == NULL_TYPE || SinglePointer(stored)
      || (UnionTag(stored) != "null" && AllTagged(t, UnionTag(stored), false))
    else if IsClass(target) then stored.UnionT? || IsClass(stored)
    else if NullablePointer(stored) then
      (AllTagged(stored, "object", true) && AllTagged(t, "object", true))
      || (AllTagged(stored, "string", true) && AllTagged(t, "string", true))
    else stored.UnionT? || AllTagged(t, UnionTag(stored), false)
  }

  lemma PlainTypeofExact(env: Env, stored: Type, t: Type, tag: string, v: Value)
    requires HasType(env, v, t) && PlainTypeof(stored, t, tag)
    ensures TypeofValue(stored, v) == tag <==> RuntimeTag(v) == tag
  {
    hide HasType, RuntimeTag, UnionTag, AllTagged, NoneTagged, NullablePointer;
    NullValue(env, v);
    if NullablePointer(stored) {
      if AllTagged(t, "object", true) {
        TaggedValue(env, v, t, "object", true);
      } else if tag != "null" {
        UntaggedValues(env, v, t, tag);
      }
    } else if !stored.UnionT? {
      TaggedValue(env, v, t, UnionTag(stored), false);
    }
  }

  lemma PlainIsExact(env: Env, stored: Type, t: Type, target: Type, v: Value)
    requires HasType(env, v, t) && PlainIs(stored, t, target)
    ensures IsValue(env, stored, v, target) <==> IsTest(env, v, target)
  {
    hide HasType, RuntimeTag, UnionTag, AllTagged, NullablePointer, SinglePointer, SomeArmTagged, Flatten;
    if target == NULL_TYPE {
      PlainNullTest(env, stored, t, v);
    } else if !IsClass(target) {
      PlainTagTest(env, stored, t, target, v);
    }
  }

  lemma PlainNullTest(env: Env, stored: Type, t: Type, v: Value)
    requires HasType(env, v, t) && PlainIs(stored, t, NULL_TYPE)
    ensures IsValue(env, stored, v, NULL_TYPE) <==> v == VNull
  {
    hide HasType, RuntimeTag, UnionTag, AllTagged, NullablePointer, SinglePointer, SomeArmTagged, Flatten, IsTest;
    NullValue(env, v);
    if !(stored.UnionT? || stored == NULL_TYPE || SinglePointer(stored)) {
      TaggedValue(env, v, t, UnionTag(stored), false);
    }
  }

  lemma PlainTagTest(env: Env, stored: Type, t: Type, target: Type, v: Value)
    requires HasType(env, v, t) && PlainIs(stored, t, target) && target != NULL_TYPE && !IsClass(target)
    ensures IsValue(env, stored, v, target) <==> RuntimeTag(v) == UnionTag(target)
  {
    hide HasType, RuntimeTag, UnionTag, AllTagged, NullablePointer, SinglePointer, SomeArmTagged, Flatten, IsTest;
    if NullablePointer(stored) {
      var tag := if AllTagged(stored, "object", true) && AllTagged(t, "object", true) then "object" else "string";
      PointerIsExact(env, stored, t, tag, target, v);
    } else if !stored.UnionT? {
      TaggedValue(env, v, t, UnionTag(stored), false);
    }
  }

  lemma PointerIsExact(env: Env, stored: Type, t: Type, tag: string, target: Type, v: Value)
    requires HasType(env, v, t) && NullablePointer(stored) && AllTagged(stored, tag, true) && AllTagged(t, tag, true)
    requires target != NULL_TYPE
    ensures v != VNull && SomeArmTagged(stored, UnionTag(target)) <==> RuntimeTag(v) == UnionTag(target)
  {
    hide HasType, RuntimeTag, UnionTag, AllTagged, NullablePointer, SomeArmTagged;
    NullValue(env, v);
    OnlyNullIsNull(target);
    TaggedValue(env, v, t, tag, true);
    PointerTags(stored, tag, UnionTag(target));
  }

  lemma PointerTags(stored: Type, tag: string, sought: string)
    requires NullablePointer(stored) && AllTagged(stored, tag, true)
    ensures SomeArmTagged(stored, sought) <==> tag == sought
  {
    hide UnionTag, SinglePointer;
    var i :| 0 <= i < |Flatten(stored)| && Flatten(stored)[i] != NULL_TYPE;
    assert UnionTag(Flatten(stored)[i]) == tag;
  }

  /** Where `typeof` narrows a pointer rightly: it never reports the tag of a string. */
  predicate PointerTypeofRight(t: Type, tag: string, positive: bool) {
    if positive then
      tag != "object" || (forall i | 0 <= i < |Flatten(t)| :: TypeofTag(Flatten(t)[i]) != Some("object"))
      || (forall i | 0 <= i < |Flatten(t)| :: Flatten(t)[i] == NULL_TYPE || TypeofTag(Flatten(t)[i]) == Some("object"))
    else
      tag == "null" || tag == "object" || forall i | 0 <= i < |Flatten(t)| :: TypeofTag(Flatten(t)[i]) != Some(tag)
  }

  /** A reference that is no object by its tag has a value no object type has. */
  lemma PointerValue(env: Env, arm: Type) returns (v: Value)
    requires SinglePointer(arm) && arm != NULL_TYPE && TypeofTag(arm) != Some("object") && !arm.UnionT? && !arm.InterT?
    ensures HasType(env, v, arm) && v != VNull
    ensures forall a: Type | TypeofTag(a) == Some("object") :: !HasType(env, v, a)
    ensures TypeofTag(arm).Some? ==>
        forall a: Type | !a.UnionT? && !a.InterT? && TypeofTag(a) != TypeofTag(arm) :: !HasType(env, v, a)
  {
    match arm
    case Prim(p) => v := if p == "string" then VString("") else VScalar(p, 0);
    case LiteralT(l) => v := VString(l.s);
    case FutureT(_) => v := VFuture(Pending);
  }

  lemma NotKept(env: Env, v: Value, t: Type, p: Type -> bool)
    requires forall i | 0 <= i < |Flatten(t)| && p(Flatten(t)[i]) :: !HasType(env, v, Flatten(t)[i])
    ensures !HasType(env, v, MakeUnion(Keep(Flatten(t), p)))
  {
    hide HasType, Flatten, MakeUnion;
    MakeUnionMeaning(env, v, Keep(Flatten(t), p));
    KeptArms(env, v, Flatten(t), p);
  }

  lemma ArmValue(env: Env, v: Value, t: Type, i: nat)
    requires i < |Flatten(t)| && HasType(env, v, Flatten(t)[i])
    ensures HasType(env, v, t)
  {
    hide HasType;
    assert InSome(env, v, Flatten(t));
    FlattenMeaning(env, v, t);
  }

  /** A positive test of a pointer for "object" loses strings and futures beside objects. */
  lemma PointerLost(env: Env, t: Type)
    requires NullablePointer(t) && (forall i | 0 <= i < |Flatten(t)| :: !Flatten(t)[i].InterT?)
    requires !PointerTypeofRight(t, "object", true)
    ensures exists v :: HasType(env, v, t) && v != VNull && !HasType(env, v, NarrowByTypeof(t, "object", true))
  {
    hide HasType, TypeofTag, SinglePointer, MakeUnion, Keep;
    var p := (arm: Type) => (TypeofTag(arm) == Some("object")) == true;
    var i: nat :| i < |Flatten(t)| && Flatten(t)[i] != NULL_TYPE && TypeofTag(Flatten(t)[i]) != Some("object");
    var k: nat :| k < |Flatten(t)| && TypeofTag(Flatten(t)[k]) == Some("object");
    var v := PointerValue(env, Flatten(t)[i]);
    ArmValue(env, v, t, i);
    assert p(Flatten(t)[k]) && Flatten(t)[k] in Keep(Flatten(t), p);
    NotKept(env, v, t, p);
  }

  /** A negative test for any other tag that an arm carries loses that arm's values. */
  lemma PointerKept(env: Env, t: Type, tag: string)
    requires NullablePointer(t) && (forall i | 0 <= i < |Flatten(t)| :: !Flatten(t)[i].InterT?)
    requires !PointerTypeofRight(t, tag, false)
    ensures exists v :: HasType(env, v, t) && !HasType(env, v, NarrowByTypeof(t, tag, false))
  {
    hide HasType, TypeofTag, SinglePointer, MakeUnion, Keep;
    var p := (arm: Type) => (TypeofTag(arm) == Some(tag)) == false;
    var i: nat :| i < |Flatten(t)| && TypeofTag(Flatten(t)[i]) == Some(tag);
    NullTagged();
    var n: nat :| n < |Flatten(t)| && Flatten(t)[n] == NULL_TYPE;
    var v := PointerValue(env, Flatten(t)[i]);
    ArmValue(env, v, t, i);
    assert p(Flatten(t)[n]) && Flatten(t)[n] in Keep(Flatten(t), p);
    NotKept(env, v, t, p);
  }

  lemma NullTagged()
    ensures TypeofTag(NULL_TYPE) == Some("null")
  {
  }

  lemma PointerPositive(env: Env, t: Type, tag: string, v: Value)
    requires NullablePointer(t) && (forall i | 0 <= i < |Flatten(t)| :: !Flatten(t)[i].InterT?)
    requires PointerTypeofRight(t, tag, true) && HasType(env, v, t) && TypeofValue(t, v) == tag
    ensures HasType(env, v, NarrowByTypeof(t, tag, true))
  {
    hide HasType, TypeofTag, SinglePointer, MakeUnion, RuntimeTag, UnionTag, TypesEqual;
    NullValue(env, v);
    var p := (arm: Type) => (TypeofTag(arm) == Some(tag)) == true;
    if v == VNull {
      TypeofSound(env, v, t, tag, true);
    } else if exists i | 0 <= i < |Flatten(t)| :: TypeofTag(Flatten(t)[i]) == Some("object") {
      AllObjects(t);
      TaggedValue(env, v, t, "object", true);
      TypeofSound(env, v, t, tag, true) by { NullTagged(); }
    } else {
      KeepNothing(Flatten(t), p);
    }
  }

  lemma {:induction false} KeepNothing(arms: seq<Type>, p: Type -> bool)
    requires forall i | 0 <= i < |arms| :: !p(arms[i])
    ensures Keep(arms, p) == []
  {
    if arms != [] { KeepNothing(arms[1..], p); }
  }

  lemma AllObjects(t: Type)
    requires forall i | 0 <= i < |Flatten(t)| :: Flatten(t)[i] == NULL_TYPE || TypeofTag(Flatten(t)[i]) == Some("object")
    ensures AllTagged(t, "object", true)
  {
    hide Flatten;
  }

  lemma PointerNegative(env: Env, t: Type, tag: string, v: Value)
    requires NullablePointer(t) && PointerTypeofRight(t, tag, false) && HasType(env, v, t) && TypeofValue(t, v) != tag
    ensures HasType(env, v, NarrowByTypeof(t, tag, false))
  {
    hide HasType, TypeofTag, SinglePointer, MakeUnion, RuntimeTag, UnionTag, TypesEqual, TagGuard;
    NullValue(env, v);
    if tag == "null" || tag == "object" {
      TypeofSound(env, v, t, tag, false);
    } else {
      var p := (arm: Type) => (TypeofTag(arm) == Some(tag)) == false;
      FlattenMeaning(env, v, t);
      KeptArms(env, v, Flatten(t), p);
      MakeUnionMeaning(env, v, Keep(Flatten(t), p));
    }
  }

  /** `typeof` narrows a variable stored as a nullable pointer rightly if and only if the
      test is one for null, a positive one for "object" where no arm is an object or all
      are, or one for a tag that no arm has (or that no value reports, where it succeeds). */
  lemma PointerTypeofIff(env: Env, t: Type, tag: string)
    requires NullablePointer(t) && forall i | 0 <= i < |Flatten(t)| :: !Flatten(t)[i].InterT?
    ensures PointerTypeofRight(t, tag, true) <==>
      forall v :: HasType(env, v, t) && TypeofValue(t, v) == tag ==> HasType(env, v, NarrowByTypeof(t, tag, true))
    ensures PointerTypeofRight(t, tag, false) <==>
      forall v :: HasType(env, v, t) && TypeofValue(t, v) != tag ==> HasType(env, v, NarrowByTypeof(t, tag, false))
  {
    hide HasType, NarrowByTypeof, PointerTypeofRight;
    if PointerTypeofRight(t, tag, true) {
      forall v | HasType(env, v, t) && TypeofValue(t, v) == tag ensures HasType(env, v, NarrowByTypeof(t, tag, true)) {
        PointerPositive(env, t, tag, v);
      }
    } else {
      OnlyObjectsLost(t, tag);
      PointerLost(env, t);
    }
    if PointerTypeofRight(t, tag, false) {
      forall v | HasType(env, v, t) && TypeofValue(t, v) != tag ensures HasType(env, v, NarrowByTypeof(t, tag, false)) {
        PointerNegative(env, t, tag, v);
      }
    } else {
      OtherTagsLost(t, tag);
      PointerKept(env, t, tag);
    }
  }

  lemma OnlyObjectsLost(t: Type, tag: string)
    requires !PointerTypeofRight(t, tag, true)
    ensures tag == "object"
  {
  }

  lemma OtherTagsLost(t: Type, tag: string)
    requires !PointerTypeofRight(t, tag, false)
    ensures tag != "null" && tag != "object"
  {
  }

  /* ---------- Narrowing only shrinks ---------- */

  lemma NarrowedFromArms(env: Env, v: Value, t: Type, p: Type -> bool)
    requires HasType(env, v, MakeUnion(Keep(Flatten(t), p)))
    ensures HasType(env, v, t)
  {
    hide HasType;
    MakeUnionMeaning(env, v, Keep(Flatten(t), p));
    KeptArms(env, v, Flatten(t), p);
    FlattenMeaning(env, v, t);
  }

  lemma StripNullShrinks(env: Env, v: Value, t: Type, seen: Value)
    requires HasType(env, seen, t) && seen != VNull && HasType(env, v, StripNull(t))
    ensures HasType(env, v, t)
  {
    var p := (arm: Type) => arm != NULL_TYPE;
    FlattenMeaning(env, seen, t);
    KeptArms(env, seen, Flatten(t), p);
    NarrowedFromArms(env, v, t, p) by {
      assert InSome(env, seen, Keep(Flatten(t), p)) by {
        var i :| 0 <= i < |Flatten(t)| && HasType(env, seen, Flatten(t)[i]);
        assert p(Flatten(t)[i]);
      }
    }
  }

  lemma TypeofShrinks(env: Env, v: Value, t: Type, tag: string, positive: bool)
    requires HasType(env, v, NarrowByTypeof(t, tag, positive))
    ensures HasType(env, v, t)
  {
    hide HasType, TypeofTag;
    var p := (arm: Type) => (TypeofTag(arm) == Some(tag)) == positive;
    if Keep(Flatten(t), p) != [] { NarrowedFromArms(env, v, t, p); }
  }

  lemma NullShrinks(env: Env, v: Value, t: Type, isNotNull: bool, seen: Value)
    requires HasType(env, seen, t) && (seen != VNull) == isNotNull && HasType(env, v, NarrowByNull(t, isNotNull))
    ensures HasType(env, v, t)
  {
    if isNotNull { StripNullShrinks(env, v, t, seen); }
  }

  lemma IsShrinks(env: Env, v: Value, t: Type, target: Type, positive: bool, seen: Value)
    requires HasType(env, seen, t) && IsTest(env, seen, target) == positive && HasType(env, v, NarrowByIs(t, target, positive))
    ensures HasType(env, v, t)
  {
    if target == NULL_TYPE {
      NullShrinks(env, v, t, !positive, seen);
    } else {
      hide HasType, TypesEqual;
      var p := (arm: Type) => TypesEqual(arm, target) == positive;
      if Keep(Flatten(t), p) != [] { NarrowedFromArms(env, v, t, p); }
    }
  }

  /** Where a fact holds of some value of the type, the narrowed type is a subset. A
      null test on a type without null is the reason the fact must hold: it narrows to
      `null`, which is no subset, in a branch that no run enters. */
  lemma NarrowShrinks(env: Env, v: Value, t: Type, f: Fact, seen: Value)
    requires HasType(env, seen, t) && FactTrue(env, f, seen) && HasType(env, v, Narrow(t, f))
    ensures HasType(env, v, t)
  {
    hide HasType, NarrowByTypeof, NarrowByNull, NarrowByIs;
    match f
    case TypeofFact(_, tag, positive) => TypeofShrinks(env, v, t, tag, positive);
    case NullFact(_, isNotNull) => NullShrinks(env, v, t, isNotNull, seen);
    case IsFact(_, target, positive) => IsShrinks(env, v, t, target, positive, seen);
  }

  lemma NullTestOnNonNull(env: Env)
    ensures var f := NullFact("x", false);
      HasType(env, VNull, Narrow(Prim("string"), f)) && !HasType(env, VNull, Prim("string"))
      && forall v :: HasType(env, v, Prim("string")) ==> !FactTrue(env, f, v)
  {
  }
}
