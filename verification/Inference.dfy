/** Type-argument inference: first-order matching of parameter annotations against
    argument types, with a map of solutions that is filled and overwritten on the way. */
module Inference {
  import opened Common
  import opened Types

  datatype Ann =
    | PrimAnn(name: string)
    | ArrayAnn(element: Ann)
    | NamedAnn(scope: Option<string>, name: string, args: seq<Ann>)
    | FunctionAnn(isAsync: bool, params: seq<Ann>, ret: Ann)
    | OtherAnn(text: string)

  type Solutions = map<string, Type>

  /** `void` is no value type; as a solution it marks the argument of `Future<void>`. */
  const VOID := Prim("void")
  const VOID_ANN := PrimAnn("void")

  predicate IsFuture(ann: Ann) {
    ann.NamedAnn? && ann.scope.None? && ann.name == "Future" && |ann.args| == 1
  }

  predicate IsParam(ps: seq<string>, ann: Ann) {
    ann.NamedAnn? && ann.scope.None? && ann.args == [] && ann.name in ps
  }

  function Solve(sol: Solutions, name: string, t: Type): Option<Solutions> {
    if name in sol && !TypesEqual(sol[name], t) then None else Some(sol[name := t])
  }

  /** Matching as a function of the solutions so far; None is a mismatch. */
  function Unify(ps: seq<string>, ann: Ann, t: Type, sol: Solutions): Option<Solutions>
    decreases ann, 1
  {
    if ann.PrimAnn? then
      if t == Prim(ann.name) then Some(sol) else None
    else if ann.ArrayAnn? then
      if t.ArrayT? then Unify(ps, ann.element, t.element, sol) else None
    else if IsFuture(ann) then
      if !t.FutureT? then None
      else if ann.args[0] == VOID_ANN then (if t.inner.Absent? then Some(sol) else None)
      else if t.inner.Absent? then
        (if IsParam(ps, ann.args[0]) then Solve(sol, ann.args[0].name, VOID) else None)
      else Unify(ps, ann.args[0], t.inner.ty, sol)
    else if ann.FunctionAnn? then
      if !t.FunctionT? || |ann.params| != |t.params| then None
      else
        var afterParams := UnifyAll(ps, ann.params, t.params, sol);
        if afterParams.None? then None
        else if ann.ret == VOID_ANN then (if t.ret.Absent? then afterParams else None)
        else if t.ret.Absent? then None
        else Unify(ps, ann.ret, t.ret.ty, afterParams.value)
    else if IsParam(ps, ann) then Solve(sol, ann.name, t)
    else Some(sol)
  }

  function UnifyAll(ps: seq<string>, anns: seq<Ann>, ts: seq<Type>, sol: Solutions): Option<Solutions>
    requires |anns| == |ts|
    decreases anns, 0
  {
    if anns == [] then Some(sol)
    else
      var first := Unify(ps, anns[0], ts[0], sol);
      if first.None? then None else UnifyAll(ps, anns[1..], ts[1..], first.value)
  }

  /* ---------- Substitution ---------- */

  function ValueOf(sol: Solutions, name: string): Type {
    if name in sol then sol[name] else TypeParamT(name, "")
  }

  /** A result or future argument, where `void` means no value. */
  function Returned(t: Type): MaybeType {
    if t == VOID then Absent else Present(t)
  }

  /** The type an annotation stands for once its parameters are replaced. */
  function Subst(ps: seq<string>, sol: Solutions, ann: Ann): Type
    decreases ann, 1
  {
    match ann
    case PrimAnn(n) => Prim(n)
    case ArrayAnn(e) => ArrayT(Subst(ps, sol, e))
    case FunctionAnn(isAsync, params, ret) =>
      FunctionT(isAsync, SubstAll(ps, sol, params), Returned(Subst(ps, sol, ret)))
    case NamedAnn(_, n, args) =>
      if IsFuture(ann) then FutureT(Returned(Subst(ps, sol, args[0])))
      else if IsParam(ps, ann) then ValueOf(sol, n)
      else NominalT(StructKind, n)
    case OtherAnn(text) => NominalT(StructKind, text)
  }

  function SubstAll(ps: seq<string>, sol: Solutions, anns: seq<Ann>): (r: seq<Type>)
    ensures |r| == |anns|
    decreases anns, 0
  {
    if anns == [] then [] else [Subst(ps, sol, anns[0])] + SubstAll(ps, sol, anns[1..])
  }

  /** Annotations built from primitives, arrays, functions, futures and parameters. */
  predicate InFragment(ps: seq<string>, ann: Ann)
    decreases ann, 1
  {
    match ann
    case PrimAnn(_) => true
    case ArrayAnn(e) => InFragment(ps, e)
    case FunctionAnn(_, params, ret) => AllInFragment(ps, params) && InFragment(ps, ret)
    case NamedAnn(_, _, args) => (IsFuture(ann) && InFragment(ps, args[0])) || IsParam(ps, ann)
    case OtherAnn(_) => false
  }

  predicate AllInFragment(ps: seq<string>, anns: seq<Ann>)
    decreases anns, 0
  {
    anns == [] || (InFragment(ps, anns[0]) && AllInFragment(ps, anns[1..]))
  }

  function ParamsIn(ps: seq<string>, ann: Ann): set<string>
    decreases ann, 1
  {
    match ann
    case ArrayAnn(e) => ParamsIn(ps, e)
    case FunctionAnn(_, params, ret) => ParamsInAll(ps, params) + ParamsIn(ps, ret)
    case NamedAnn(_, n, args) =>
      if IsFuture(ann) then ParamsIn(ps, args[0]) else if IsParam(ps, ann) then {n} else {}
    case _ => {}
  }

  function ParamsInAll(ps: seq<string>, anns: seq<Ann>): set<string>
    decreases anns, 0
  {
    if anns == [] then {} else ParamsIn(ps, anns[0]) + ParamsInAll(ps, anns[1..])
  }

  /** `void` does not occur as the type of a value. */
  predicate VoidFree(t: Type)
    decreases t, 1
  {
    match t
    case ArrayT(e) => VoidFree(e)
    case FutureT(inner) => inner.Absent? || VoidFree(inner.ty)
    case FunctionT(_, params, ret) => AllVoidFree(params) && (ret.Absent? || VoidFree(ret.ty))
    case _ => t != VOID
  }

  predicate AllVoidFree(ts: seq<Type>)
    decreases ts, 0
  {
    forall i | 0 <= i < |ts| :: VoidFree(ts[i])
  }

  /** Function annotations and function types agree on being async, which matching does
      not look at. */
  predicate AsyncAgrees(ann: Ann, t: Type)
    decreases ann, 1
  {
    match ann
    case ArrayAnn(e) => t.ArrayT? ==> AsyncAgrees(e, t.element)
    case FunctionAnn(isAsync, params, ret) =>
      t.FunctionT? ==>
        isAsync == t.isAsync && AllAsyncAgree(params, t.params) && (t.ret.Present? ==> AsyncAgrees(ret, t.ret.ty))
    case NamedAnn(_, _, args) =>
      IsFuture(ann) && t.FutureT? && t.inner.Present? ==> AsyncAgrees(args[0], t.inner.ty)
    case _ => true
  }

  predicate AllAsyncAgree(anns: seq<Ann>, ts: seq<Type>)
    decreases anns, 0
  {
    anns == [] || ts == [] || (AsyncAgrees(anns[0], ts[0]) && AllAsyncAgree(anns[1..], ts[1..]))
  }

  /* ---------- Soundness ---------- */

  /** `next` keeps every solution of `sol`, up to structural equality. */
  predicate Extends(sol: Solutions, next: Solutions) {
    forall n | n in sol :: n in next && Erase(sol[n]) == Erase(next[n])
  }

  lemma SolveExtends(sol: Solutions, name: string, t: Type)
    requires Solve(sol, name, t).Some?
    ensures Extends(sol, Solve(sol, name, t).value)
  {
    if name in sol { EqualIffErased(sol[name], t); }
  }

  lemma {:induction false} UnifyExtends(ps: seq<string>, ann: Ann, t: Type, sol: Solutions)
    requires Unify(ps, ann, t, sol).Some?
    ensures Extends(sol, Unify(ps, ann, t, sol).value)
    decreases ann, 1
  {
    if ann.ArrayAnn? {
      UnifyExtends(ps, ann.element, t.element, sol);
    } else if IsFuture(ann) && ann.args[0] != VOID_ANN {
      if t.inner.Absent? {
        SolveExtends(sol, ann.args[0].name, VOID);
      } else {
        UnifyExtends(ps, ann.args[0], t.inner.ty, sol);
      }
    } else if ann.FunctionAnn? {
      UnifyAllExtends(ps, ann.params, t.params, sol);
      if ann.ret != VOID_ANN {
        UnifyExtends(ps, ann.ret, t.ret.ty, UnifyAll(ps, ann.params, t.params, sol).value);
      }
    } else if IsParam(ps, ann) {
      SolveExtends(sol, ann.name, t);
    }
  }

  lemma {:induction false} UnifyAllExtends(ps: seq<string>, anns: seq<Ann>, ts: seq<Type>, sol: Solutions)
    requires |anns| == |ts| && UnifyAll(ps, anns, ts, sol).Some?
    ensures Extends(sol, UnifyAll(ps, anns, ts, sol).value)
    decreases anns, 0
  {
    hide Unify;
    if anns != [] {
      UnifyExtends(ps, anns[0], ts[0], sol);
      UnifyAllExtends(ps, anns[1..], ts[1..], Unify(ps, anns[0], ts[0], sol).value);
    }
  }

  lemma VoidFreeIsValue(t: Type)
    requires VoidFree(t)
    ensures t != VOID && Erase(t) != VOID
  {
  }

  lemma EraseReturned(t: Type, m: MaybeType)
    requires m.Present? ==> VoidFree(m.ty)
    ensures EraseMaybe(Returned(t)) == EraseMaybe(m) <==> Erase(t) == (if m.Absent? then VOID else Erase(m.ty))
  {
    if m.Present? { VoidFreeIsValue(m.ty); }
  }

  /** Success makes the annotation, with its parameters replaced by these or any later
      solutions, the argument's type, exactly when the two agree on async. */
  lemma {:induction false} UnifySound(ps: seq<string>, ann: Ann, t: Type, sol: Solutions, later: Solutions)
    requires InFragment(ps, ann) && VoidFree(t) && Unify(ps, ann, t, sol).Some?
    requires Extends(Unify(ps, ann, t, sol).value, later)
    ensures Erase(Subst(ps, later, ann)) == Erase(t) <==> AsyncAgrees(ann, t)
    ensures ParamsIn(ps, ann) <= later.Keys
    decreases ann, 1
  {
    if ann.ArrayAnn? {
      UnifySound(ps, ann.element, t.element, sol, later);
    } else if IsFuture(ann) {
      EraseReturned(Subst(ps, later, ann.args[0]), t.inner);
      if t.inner.Present? { UnifySound(ps, ann.args[0], t.inner.ty, sol, later); }
    } else if ann.FunctionAnn? {
      FunctionSound(ps, ann, t, sol, later);
    }
  }

  lemma {:induction false} FunctionSound(ps: seq<string>, ann: Ann, t: Type, sol: Solutions, later: Solutions)
    requires ann.FunctionAnn? && InFragment(ps, ann) && VoidFree(t) && Unify(ps, ann, t, sol).Some?
    requires Extends(Unify(ps, ann, t, sol).value, later)
    ensures Erase(Subst(ps, later, ann)) == Erase(t) <==> AsyncAgrees(ann, t)
    ensures ParamsIn(ps, ann) <= later.Keys
    decreases ann, 0
  {
    hide Extends;
    var afterParams := UnifyAll(ps, ann.params, t.params, sol).value;
    if ann.ret != VOID_ANN {
      UnifyExtends(ps, ann.ret, t.ret.ty, afterParams);
      ExtendsTransitive(afterParams, Unify(ps, ann, t, sol).value, later);
      UnifySound(ps, ann.ret, t.ret.ty, afterParams, later);
    }
    UnifyAllSound(ps, ann.params, t.params, sol, later);
    EraseReturned(Subst(ps, later, ann.ret), t.ret);
  }

  lemma ExtendsTransitive(a: Solutions, b: Solutions, c: Solutions)
    requires Extends(a, b) && Extends(b, c)
    ensures Extends(a, c)
  {
  }

  lemma {:induction false} UnifyAllSound(ps: seq<string>, anns: seq<Ann>, ts: seq<Type>, sol: Solutions, later: Solutions)
    requires |anns| == |ts| && AllInFragment(ps, anns) && AllVoidFree(ts) && UnifyAll(ps, anns, ts, sol).Some?
    requires Extends(UnifyAll(ps, anns, ts, sol).value, later)
    ensures EraseAll(SubstAll(ps, later, anns)) == EraseAll(ts) <==> AllAsyncAgree(anns, ts)
    ensures ParamsInAll(ps, anns) <= later.Keys
    decreases anns, 0
  {
    hide Unify, Extends, Subst, VoidFree, Erase, InFragment;
    if anns != [] {
      var first := Unify(ps, anns[0], ts[0], sol).value;
      UnifyAllExtends(ps, anns[1..], ts[1..], first);
      ExtendsTransitive(first, UnifyAll(ps, anns, ts, sol).value, later);
      UnifySound(ps, anns[0], ts[0], sol, later);
      UnifyAllSound(ps, anns[1..], ts[1..], first, later);
      EraseCons(Subst(ps, later, anns[0]), SubstAll(ps, later, anns[1..]), ts);
    }
  }

  lemma EraseFirst(ts: seq<Type>)
    requires ts != []
    ensures EraseAll(ts) == [Erase(ts[0])] + EraseAll(ts[1..])
  {
    hide Erase;
    assert forall i | 0 <= i < |ts| - 1 :: ts[1..][i] == ts[i + 1];
  }

  lemma EraseCons(x: Type, xs: seq<Type>, ts: seq<Type>)
    requires |ts| == |xs| + 1
    ensures EraseAll([x] + xs) == EraseAll(ts) <==> Erase(x) == Erase(ts[0]) && EraseAll(xs) == EraseAll(ts[1..])
  {
    hide Erase, EraseAll;
    EraseFirst([x] + xs);
    EraseFirst(ts);
    assert ([x] + xs)[1..] == xs;
    assert ([Erase(x)] + EraseAll(xs))[1..] == EraseAll(xs);
    assert ([Erase(ts[0])] + EraseAll(ts[1..]))[1..] == EraseAll(ts[1..]);
  }

  /* ---------- Completeness ---------- */

  /** Every solution so far is, up to structural equality, what `target` gives. */
  predicate Below(sol: Solutions, target: Solutions) {
    forall n | n in sol :: Erase(sol[n]) == Erase(ValueOf(target, n))
  }

  /** No function result becomes `void` by substitution. */
  predicate ResultsNonVoid(ps: seq<string>, target: Solutions, ann: Ann)
    decreases ann, 1
  {
    match ann
    case ArrayAnn(e) => ResultsNonVoid(ps, target, e)
    case FunctionAnn(_, params, ret) =>
      AllResultsNonVoid(ps, target, params) && ResultsNonVoid(ps, target, ret)
      && (ret != VOID_ANN ==> Subst(ps, target, ret) != VOID)
    case NamedAnn(_, _, args) => IsFuture(ann) ==> ResultsNonVoid(ps, target, args[0])
    case _ => true
  }

  predicate AllResultsNonVoid(ps: seq<string>, target: Solutions, anns: seq<Ann>)
    decreases anns, 0
  {
    anns == [] || (ResultsNonVoid(ps, target, anns[0]) && AllResultsNonVoid(ps, target, anns[1..]))
  }

  lemma SolveBelow(sol: Solutions, target: Solutions, name: string, t: Type)
    requires Below(sol, target) && Erase(ValueOf(target, name)) == Erase(t)
    ensures Solve(sol, name, t).Some? && Below(Solve(sol, name, t).value, target)
  {
    if name in sol { EqualIffErased(sol[name], t); }
  }

  lemma OnlyPrimErasesTo(t: Type, n: string)
    ensures Erase(t) == Prim(n) <==> t == Prim(n)
  {
  }

  /** If some substitution makes the annotation the argument's type, matching succeeds
      and its solutions are those of the substitution. */
  lemma {:induction false} UnifyComplete(ps: seq<string>, ann: Ann, t: Type, sol: Solutions, target: Solutions)
    requires InFragment(ps, ann) && VoidFree(t) && ResultsNonVoid(ps, target, ann) && Below(sol, target)
    requires Erase(Subst(ps, target, ann)) == Erase(t)
    ensures Unify(ps, ann, t, sol).Some? && Below(Unify(ps, ann, t, sol).value, target)
    decreases ann, 1
  {
    hide Below, VoidFree;
    if ann.PrimAnn? {
      OnlyPrimErasesTo(t, ann.name);
    } else if ann.ArrayAnn? {
      ArrayVoidFree(t);
      UnifyComplete(ps, ann.element, t.element, sol, target);
    } else if IsFuture(ann) {
      FutureComplete(ps, ann, t, sol, target);
    } else if ann.FunctionAnn? {
      FunctionComplete(ps, ann, t, sol, target);
    } else {
      SolveBelow(sol, target, ann.name, t);
    }
  }

  lemma ArrayVoidFree(t: Type)
    requires VoidFree(t) && t.ArrayT?
    ensures VoidFree(t.element)
  {
  }

  lemma {:induction false} FutureComplete(ps: seq<string>, ann: Ann, t: Type, sol: Solutions, target: Solutions)
    requires IsFuture(ann) && InFragment(ps, ann) && VoidFree(t) && ResultsNonVoid(ps, target, ann) && Below(sol, target)
    requires Erase(Subst(ps, target, ann)) == Erase(t)
    ensures Unify(ps, ann, t, sol).Some? && Below(Unify(ps, ann, t, sol).value, target)
    decreases ann, 0
  {
    hide Below;
    var arg := ann.args[0];
    var inner := Subst(ps, target, arg);
    assert t.FutureT? && EraseMaybe(Returned(inner)) == EraseMaybe(t.inner);
    EraseReturned(inner, t.inner);
    OnlyPrimErasesTo(inner, "void");
    if t.inner.Absent? {
      if arg != VOID_ANN { SolveBelow(sol, target, arg.name, VOID); }
    } else {
      VoidFreeIsValue(t.inner.ty);
      UnifyComplete(ps, arg, t.inner.ty, sol, target);
    }
  }

  lemma {:induction false} FunctionComplete(ps: seq<string>, ann: Ann, t: Type, sol: Solutions, target: Solutions)
    requires ann.FunctionAnn? && InFragment(ps, ann) && VoidFree(t) && ResultsNonVoid(ps, target, ann) && Below(sol, target)
    requires Erase(Subst(ps, target, ann)) == Erase(t)
    ensures Unify(ps, ann, t, sol).Some? && Below(Unify(ps, ann, t, sol).value, target)
    decreases ann, 0
  {
    hide Below;
    var result := Subst(ps, target, ann.ret);
    assert t.FunctionT? && EraseMaybe(Returned(result)) == EraseMaybe(t.ret);
    assert EraseAll(SubstAll(ps, target, ann.params)) == EraseAll(t.params);
    UnifyAllComplete(ps, ann.params, t.params, sol, target);
    EraseReturned(result, t.ret);
    OnlyPrimErasesTo(result, "void");
    if t.ret.Present? {
      VoidFreeIsValue(t.ret.ty);
      UnifyComplete(ps, ann.ret, t.ret.ty, UnifyAll(ps, ann.params, t.params, sol).value, target);
    }
  }

  lemma {:induction false} UnifyAllComplete(ps: seq<string>, anns: seq<Ann>, ts: seq<Type>, sol: Solutions,
                                            target: Solutions)
    requires AllInFragment(ps, anns) && AllVoidFree(ts) && AllResultsNonVoid(ps, target, anns) && Below(sol, target)
    requires EraseAll(SubstAll(ps, target, anns)) == EraseAll(ts)
    ensures |anns| == |ts|
    ensures UnifyAll(ps, anns, ts, sol).Some? && Below(UnifyAll(ps, anns, ts, sol).value, target)
    decreases anns, 0
  {
    hide Unify, Below, Subst, VoidFree, Erase, InFragment, ResultsNonVoid;
    assert |EraseAll(SubstAll(ps, target, anns))| == |EraseAll(ts)|;
    if anns != [] {
      EraseCons(Subst(ps, target, anns[0]), SubstAll(ps, target, anns[1..]), ts);
      UnifyComplete(ps, anns[0], ts[0], sol, target);
      UnifyAllComplete(ps, anns[1..], ts[1..], Unify(ps, anns[0], ts[0], sol).value, target);
    }
  }

  /** Matching never succeeds where the substitution makes a function result `void`. */
  lemma {:induction false} UnifyNeedsResults(ps: seq<string>, ann: Ann, t: Type, sol: Solutions, target: Solutions)
    requires InFragment(ps, ann) && VoidFree(t) && Unify(ps, ann, t, sol).Some?
    requires Erase(Subst(ps, target, ann)) == Erase(t)
    ensures ResultsNonVoid(ps, target, ann)
    decreases ann, 1
  {
    if ann.ArrayAnn? {
      UnifyNeedsResults(ps, ann.element, t.element, sol, target);
    } else if IsFuture(ann) {
      EraseReturned(Subst(ps, target, ann.args[0]), t.inner);
      if t.inner.Present? { UnifyNeedsResults(ps, ann.args[0], t.inner.ty, sol, target); }
    } else if ann.FunctionAnn? {
      FunctionNeedsResults(ps, ann, t, sol, target);
    }
  }

  lemma {:induction false} FunctionNeedsResults(ps: seq<string>, ann: Ann, t: Type, sol: Solutions, target: Solutions)
    requires ann.FunctionAnn? && InFragment(ps, ann) && VoidFree(t) && Unify(ps, ann, t, sol).Some?
    requires Erase(Subst(ps, target, ann)) == Erase(t)
    ensures ResultsNonVoid(ps, target, ann)
    decreases ann, 0
  {
    UnifyAllNeedsResults(ps, ann.params, t.params, sol, target);
    EraseReturned(Subst(ps, target, ann.ret), t.ret);
    if ann.ret != VOID_ANN {
      VoidFreeIsValue(t.ret.ty);
      UnifyNeedsResults(ps, ann.ret, t.ret.ty, UnifyAll(ps, ann.params, t.params, sol).value, target);
    }
  }

  lemma {:induction false} UnifyAllNeedsResults(ps: seq<string>, anns: seq<Ann>, ts: seq<Type>, sol: Solutions,
                                                target: Solutions)
    requires |anns| == |ts| && AllInFragment(ps, anns) && AllVoidFree(ts) && UnifyAll(ps, anns, ts, sol).Some?
    requires EraseAll(SubstAll(ps, target, anns)) == EraseAll(ts)
    ensures AllResultsNonVoid(ps, target, anns)
    decreases anns, 0
  {
    hide Unify, Subst, VoidFree, Erase, InFragment, ResultsNonVoid;
    if anns != [] {
      EraseCons(Subst(ps, target, anns[0]), SubstAll(ps, target, anns[1..]), ts);
      UnifyNeedsResults(ps, anns[0], ts[0], sol, target);
      UnifyAllNeedsResults(ps, anns[1..], ts[1..], Unify(ps, anns[0], ts[0], sol).value, target);
    }
  }

  /* ---------- The whole inference ---------- */

  /** The solutions of a call, None where an argument does not match. */
  function Infer(ps: seq<string>, anns: seq<Ann>, ts: seq<Type>): Option<Solutions>
    requires |anns| == |ts|
  {
    UnifyAll(ps, anns, ts, map[])
  }

  /** Soundness: after a successful inference every parameter annotation has become its
      argument's type, exactly where both agree on async. */
  lemma InferenceSound(ps: seq<string>, anns: seq<Ann>, ts: seq<Type>)
    requires |anns| == |ts| && AllInFragment(ps, anns) && AllVoidFree(ts) && Infer(ps, anns, ts).Some?
    ensures var sol := Infer(ps, anns, ts).value;
      ParamsInAll(ps, anns) <= sol.Keys
      && (ListsEqual(SubstAll(ps, sol, anns), ts) <==> AllAsyncAgree(anns, ts))
  {
    var sol := Infer(ps, anns, ts).value;
    UnifyAllSound(ps, anns, ts, map[], sol);
    ListsEqualIffErased(SubstAll(ps, sol, anns), ts);
  }

  /** Completeness: given a substitution that makes the annotations the argument types,
      the inference succeeds exactly when it makes no function result `void`, and then
      agrees with it on every parameter that occurs. */
  lemma InferenceComplete(ps: seq<string>, anns: seq<Ann>, ts: seq<Type>, target: Solutions)
    requires |anns| == |ts| && AllInFragment(ps, anns) && AllVoidFree(ts)
    requires ListsEqual(SubstAll(ps, target, anns), ts)
    ensures Infer(ps, anns, ts).Some? <==> AllResultsNonVoid(ps, target, anns)
    ensures Infer(ps, anns, ts).Some? ==> forall n | n in ParamsInAll(ps, anns) ::
      n in Infer(ps, anns, ts).value && TypesEqual(Infer(ps, anns, ts).value[n], ValueOf(target, n))
  {
    ListsEqualIffErased(SubstAll(ps, target, anns), ts);
    if Infer(ps, anns, ts).Some? { UnifyAllNeedsResults(ps, anns, ts, map[], target); }
    if AllResultsNonVoid(ps, target, anns) {
      UnifyAllComplete(ps, anns, ts, map[], target);
      var sol := Infer(ps, anns, ts).value;
      UnifyAllSound(ps, anns, ts, map[], sol);
      forall n | n in ParamsInAll(ps, anns) ensures n in sol && TypesEqual(sol[n], ValueOf(target, n)) {
        EqualIffErased(sol[n], ValueOf(target, n));
      }
    }
  }

  /** Where completeness ends: `() => T` does not match a void function, although
      replacing T by void would make it one, as it does for `Future<T>`. */
  lemma VoidResultUnmatched(sol: Solutions)
    ensures var ann, t := FunctionAnn(false, [], NamedAnn(None, "T", [])), FunctionT(false, [], Absent);
      Unify(["T"], ann, t, sol).None? && Subst(["T"], map["T" := VOID], ann) == t
  {
    var ann := FunctionAnn(false, [], NamedAnn(None, "T", []));
    assert IsParam(["T"], ann.ret);
    assert SubstAll(["T"], map["T" := VOID], []) == [];
  }

  /* ---------- As it runs ---------- */

  class Unifier {
    const typeParams: seq<string>
    var solutions: Solutions

    constructor (typeParams: seq<string>)
      ensures this.typeParams == typeParams && solutions == map[]
    {
      this.typeParams := typeParams;
      solutions := map[];
    }

    method Set(name: string, t: Type) returns (ok: bool)
      modifies this
      ensures ok <==> Solve(old(solutions), name, t).Some?
      ensures ok ==> solutions == Solve(old(solutions), name, t).value
    {
      if name in solutions && !TypesEqual(solutions[name], t) { return false; }
      solutions := solutions[name := t];
      return true;
    }

    /** Matches one annotation, filling the solutions. */
    method Match(ann: Ann, t: Type) returns (ok: bool)
      modifies this
      ensures ok <==> Unify(typeParams, ann, t, old(solutions)).Some?
      ensures ok ==> solutions == Unify(typeParams, ann, t, old(solutions)).value
      decreases ann, 1
    {
      if ann.PrimAnn? { return t == Prim(ann.name); }
      if ann.ArrayAnn? {
        if !t.ArrayT? { return false; }
        ok := Match(ann.element, t.element);
        return;
      }
      if IsFuture(ann) {
        if !t.FutureT? { return false; }
        var arg := ann.args[0];
        if arg == VOID_ANN { return t.inner.Absent?; }
        if t.inner.Absent? {
          if !IsParam(typeParams, arg) { return false; }
          ok := Set(arg.name, VOID);
          return;
        }
        ok := Match(arg, t.inner.ty);
        return;
      }
      if ann.FunctionAnn? {
        if !t.FunctionT? || |ann.params| != |t.params| { return false; }
        ok := MatchAll(ann.params, t.params);
        if !ok { return; }
        if ann.ret == VOID_ANN { return t.ret.Absent?; }
        if t.ret.Absent? { return false; }
        ok := Match(ann.ret, t.ret.ty);
        return;
      }
      if IsParam(typeParams, ann) {
        ok := Set(ann.name, t);
        return;
      }
      return true;
    }

    method MatchAll(anns: seq<Ann>, ts: seq<Type>) returns (ok: bool)
      requires |anns| == |ts|
      modifies this
      ensures ok <==> UnifyAll(typeParams, anns, ts, old(solutions)).Some?
      ensures ok ==> solutions == UnifyAll(typeParams, anns, ts, old(solutions)).value
      decreases anns, 0
    {
      hide Unify;
      for i := 0 to |anns|
        invariant UnifyAll(typeParams, anns[i..], ts[i..], solutions) == UnifyAll(typeParams, anns, ts, old(solutions))
      {
        assert anns[i..][0] == anns[i] && anns[i..][1..] == anns[i + 1..] && ts[i..][1..] == ts[i + 1..];
        ok := Match(anns[i], ts[i]);
        if !ok { return; }
      }
      return true;
    }
  }

  /** The solution of each parameter in order, or None for the ones never met. */
  method InferTypeArgsPartial(typeParams: seq<string>, anns: seq<Ann>, ts: seq<Type>)
    returns (r: Option<seq<Option<Type>>>)
    requires |anns| == |ts|
    ensures r.Some? <==> Infer(typeParams, anns, ts).Some?
    ensures r.Some? ==>
      var sol := Infer(typeParams, anns, ts).value;
      |r.value| == |typeParams| && forall i | 0 <= i < |typeParams| ::
        r.value[i] == if typeParams[i] in sol then Some(sol[typeParams[i]]) else None
  {
    var unifier := new Unifier(typeParams);
    var ok := unifier.MatchAll(anns, ts);
    if !ok { return None; }
    var solutions := unifier.solutions;
    r := Some(seq(|typeParams|, i requires 0 <= i < |typeParams| =>
      if typeParams[i] in solutions then Some(solutions[typeParams[i]]) else None));
  }
}
