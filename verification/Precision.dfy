/** Narrowing loses nothing: conditions made of tests are as strong as their facts, and a
    narrowed type has exactly the values for which the fact is true. */
module Precision {
  import opened Common
  import opened Types
  import opened Assignability
  import opened Narrowing
  import opened Conditions

  /* ---------- Facts say all there is ---------- */

  predicate VariableTest(e: Expr) {
    match e
    case EIs(x, target) => x.EVar? && target.Some?
    case EBin(op, l, r) => (op == EqOp || op == NeOp) && (Compares(l, r) || Compares(r, l))
    case _ => false
  }

  /** Tests of variables, and conjunctions of such in the branch where all of them hold. */
  predicate ToldWhenTrue(e: Expr) {
    match e
    case ENot(x) => ToldInverted(x)
    case EBin(op, l, r) => if op == And then ToldWhenTrue(l) && ToldWhenTrue(r) else VariableTest(e)
    case _ => VariableTest(e)
  }

  predicate ToldInverted(e: Expr) {
    match e
    case ENot(x) => ToldWhenTrue(x)
    case _ => VariableTest(e)
  }

  predicate ToldWhenFalse(e: Expr) {
    if e.EBin? && e.op == Or then ToldWhenFalse(e.left) && ToldWhenFalse(e.right) else ToldInverted(e)
  }

  lemma TestHasFact(ctx: Ctx, e: Expr, store: Store, tick: nat)
    requires VariableTest(e) && TestsRead(ctx, e, store)
    ensures |TrueFacts(e)| == 1
    ensures FactTrue(ctx.env, TrueFacts(e)[0], Read(store, TrueFacts(e)[0].name)) <==> Holds(ctx, e, store, tick)
  {
    hide FactTrue, Holds, TagRead, IsResult, IsTest, TypeofResult, TrueTests;
    TrueTestsMatch(ctx, e, store, tick);
    TestIsExpected(e);
    assert Matches(ctx, TrueFacts(e)[0], TrueTests(e)[0], store, tick);
  }

  lemma TestIsExpected(e: Expr)
    requires VariableTest(e)
    ensures TrueTests(e) == [Expected(e, true)]
  {
  }

  /** A condition made of tests holds exactly when its true facts do, and fails exactly when
      its false facts do. */
  lemma {:induction false} FactsTellAll(ctx: Ctx, e: Expr, store: Store, tick: nat)
    requires TestsRead(ctx, e, store)
    ensures ToldWhenTrue(e) ==> (AllTrue(ctx.env, TrueFacts(e), store) <==> Holds(ctx, e, store, tick))
    ensures ToldInverted(e) ==> (AllTrue(ctx.env, InvertFacts(TrueFacts(e)), store) <==> !Holds(ctx, e, store, tick))
    ensures ToldWhenFalse(e) ==> (AllTrue(ctx.env, FalseFacts(e), store) <==> !Holds(ctx, e, store, tick))
    decreases e
  {
    hide FactTrue, VariableTest, TagRead, IsResult, IsTest, TypeofResult;
    if VariableTest(e) {
      TestHasFact(ctx, e, store, tick);
      var f := TrueFacts(e)[0];
      InvertedFactTrue(ctx.env, f, Read(store, f.name));
      assert InvertFacts(TrueFacts(e))[0] == InvertFact(f);
    }
    match e
    case ENot(x) =>
      FactsTellAll(ctx, x, store, tick);
      InvertTwice(TrueFacts(x));
    case EBin(op, l, r) =>
      if op == And || op == Or {
        FactsTellAll(ctx, l, store, tick);
        FactsTellAll(ctx, r, store, tick);
        AllTrueConcat(ctx.env, TrueFacts(l), TrueFacts(r), store);
        AllTrueConcat(ctx.env, FalseFacts(l), FalseFacts(r), store);
      }
    case _ =>
  }

  lemma AllTrueConcat(env: Env, fs: seq<Fact>, gs: seq<Fact>, store: Store)
    ensures AllTrue(env, fs + gs, store) <==> AllTrue(env, fs, store) && AllTrue(env, gs, store)
  {
    hide FactTrue;
    var all := fs + gs;
    assert forall i | 0 <= i < |gs| :: all[|fs| + i] == gs[i];
    assert forall i | 0 <= i < |fs| :: all[i] == fs[i];
  }

  /* ---------- A narrowed type has no other values ---------- */

  /** The arm stays when the fact is assumed. */
  predicate Selected(f: Fact, arm: Type) {
    match f
    case TypeofFact(_, tag, positive) => (TypeofTag(arm) == Some(tag)) == positive
    case NullFact(_, isNotNull) => (arm != NULL_TYPE) == isNotNull
    case IsFact(_, target, positive) => TypesEqual(arm, target) == positive
  }

  /** The type of the arm decides the test for all of its values. */
  predicate Decides(f: Fact, arm: Type) {
    !arm.InterT?
    && match f
       case TypeofFact(_, tag, _) => TypeofTag(arm).Some? || (tag != "object" && !(arm.PtrT? && tag == "null"))
       case NullFact(_, _) => !arm.PtrT?
       case IsFact(_, target, _) =>
         !arm.PtrT? && (TypesEqual(arm, target) || target == NULL_TYPE || UnionTag(arm) != UnionTag(target))
  }

  predicate Splits(t: Type, f: Fact) {
    (forall i | 0 <= i < |Flatten(t)| :: Decides(f, Flatten(t)[i]))
    && exists i | 0 <= i < |Flatten(t)| :: Selected(f, Flatten(t)[i])
  }

  lemma TagDecides(env: Env, v: Value, tag: string, positive: bool, arm: Type)
    requires HasType(env, v, arm) && Decides(TypeofFact("", tag, positive), arm) && !arm.UnionT?
    ensures RuntimeTag(v) == tag <==> TypeofTag(arm) == Some(tag)
  {
    hide HasType, TypeofTag;
    if TypeofTag(arm).Some? {
      TaggedArmReportsTag(env, v, arm);
    } else {
      UntaggedArmReportsObject(env, v, arm);
      if !arm.PtrT? { NullIsOf(env, v, arm); }
    }
  }

  /** Null is a value of null, pointers, unions and intersections only. */
  lemma NullIsOf(env: Env, v: Value, arm: Type)
    requires HasType(env, v, arm) && !arm.UnionT? && !arm.InterT? && !arm.PtrT?
    ensures v == VNull <==> arm == NULL_TYPE
    ensures arm == NULL_TYPE ==> TypeofTag(arm) == Some("null")
  {
    hide OnChain;
  }

  lemma ClassDecides(env: Env, v: Value, target: Type, arm: Type)
    requires HasType(env, v, arm) && IsClass(target) && !arm.PtrT? && !arm.InterT? && !arm.UnionT?
    requires UnionTag(arm) != UnionTag(target)
    ensures !HasType(env, v, target)
  {
    hide OnChain;
    ValueReportsTag(env, v, arm);
  }

  lemma IsDecides(env: Env, v: Value, target: Type, positive: bool, arm: Type)
    requires HasType(env, v, arm) && Decides(IsFact("", target, positive), arm) && !arm.UnionT?
    ensures IsTest(env, v, target) <==> TypesEqual(arm, target)
  {
    hide HasType, UnionTag, RuntimeTag;
    ValueReportsTag(env, v, arm);
    NullIsOf(env, v, arm);
    if TypesEqual(arm, target) {
      EqualTypesSameValues(env, v, arm, target);
      if target != NULL_TYPE && !IsClass(target) { EqualTag(arm, target); }
    } else if IsClass(target) {
      ClassDecides(env, v, target, arm);
    }
  }

  lemma EqualTag(arm: Type, target: Type)
    requires TypesEqual(arm, target) && !arm.UnionT? && !arm.InterT?
    ensures UnionTag(arm) == UnionTag(target)
  {
  }

  lemma ArmDecides(env: Env, v: Value, f: Fact, arm: Type)
    requires HasType(env, v, arm) && Decides(f, arm) && !arm.UnionT?
    ensures FactTrue(env, f, v) <==> Selected(f, arm)
  {
    hide HasType, IsTest, RuntimeTag, TypeofTag, UnionTag, TypesEqual;
    match f
    case TypeofFact(_, tag, positive) => TagDecides(env, v, tag, positive, arm);
    case NullFact(_, _) => NullIsOf(env, v, arm);
    case IsFact(_, target, positive) => IsDecides(env, v, target, positive, arm);
  }

  /** Assuming a fact keeps the union of the arms it selects. */
  lemma NarrowIsSelection(env: Env, v: Value, t: Type, f: Fact)
    requires exists i | 0 <= i < |Flatten(t)| :: Selected(f, Flatten(t)[i])
    ensures HasType(env, v, Narrow(t, f)) <==>
      exists i | 0 <= i < |Flatten(t)| :: Selected(f, Flatten(t)[i]) && HasType(env, v, Flatten(t)[i])
  {
    hide HasType, TypesEqual, TypeofTag;
    match f
    case TypeofFact(_, tag, positive) => KeptIsSelection(env, v, t, f, arm => (TypeofTag(arm) == Some(tag)) == positive);
    case NullFact(_, isNotNull) => NullIsSelection(env, v, t, isNotNull);
    case IsFact(_, target, positive) =>
      if target == NULL_TYPE {
        OnlyNullEqual(t);
        NullIsSelection(env, v, t, !positive);
      } else {
        KeptIsSelection(env, v, t, f, arm => TypesEqual(arm, target) == positive);
      }
  }

  lemma OnlyNullEqual(t: Type)
    ensures forall i | 0 <= i < |Flatten(t)| :: TypesEqual(Flatten(t)[i], NULL_TYPE) <==> Flatten(t)[i] == NULL_TYPE
  {
  }

  lemma KeptIsSelection(env: Env, v: Value, t: Type, f: Fact, p: Type -> bool)
    requires (forall arm :: p(arm) <==> Selected(f, arm)) && exists i | 0 <= i < |Flatten(t)| :: Selected(f, Flatten(t)[i])
    ensures Keep(Flatten(t), p) != []
    ensures HasType(env, v, MakeUnion(Keep(Flatten(t), p))) <==>
      exists i | 0 <= i < |Flatten(t)| :: Selected(f, Flatten(t)[i]) && HasType(env, v, Flatten(t)[i])
  {
    hide HasType, Selected;
    var arms, kept := Flatten(t), Keep(Flatten(t), p);
    var k :| 0 <= k < |arms| && Selected(f, arms[k]);
    assert arms[k] in arms && p(arms[k]);
    KeptArms(env, v, arms, p);
    MakeUnionMeaning(env, v, kept);
  }

  lemma NullIsSelection(env: Env, v: Value, t: Type, isNotNull: bool)
    requires exists i | 0 <= i < |Flatten(t)| :: Selected(NullFact("", isNotNull), Flatten(t)[i])
    ensures HasType(env, v, NarrowByNull(t, isNotNull)) <==>
      exists i | 0 <= i < |Flatten(t)| :: Selected(NullFact("", isNotNull), Flatten(t)[i]) && HasType(env, v, Flatten(t)[i])
  {
    hide HasType;
    if isNotNull { KeptIsSelection(env, v, t, NullFact("", true), arm => arm != NULL_TYPE); }
  }

  /** Where the arms decide the fact and one of them is selected, the narrowed type has
      exactly the values of the old one for which the fact is true. */
  lemma NarrowExact(env: Env, v: Value, t: Type, f: Fact)
    requires Splits(t, f)
    ensures HasType(env, v, Narrow(t, f)) <==> HasType(env, v, t) && FactTrue(env, f, v)
  {
    hide HasType, FactTrue, Selected, Decides, Narrow;
    NarrowIsSelection(env, v, t, f);
    FlattenMeaning(env, v, t);
    forall i | 0 <= i < |Flatten(t)| && HasType(env, v, Flatten(t)[i])
      ensures FactTrue(env, f, v) <==> Selected(f, Flatten(t)[i])
    {
      assert Flatten(t)[i] in Flatten(t) && Decides(f, Flatten(t)[i]);
      ArmDecides(env, v, f, Flatten(t)[i]);
    }
  }
}
