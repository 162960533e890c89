/** What the checker accepts: values as their types demand, guarded uses as the tests allow,
    and nothing that gets stuck when it runs. */
module Acceptance {
  import opened Common
  import opened Types
  import opened Assignability
  import opened Subtyping
  import opened Narrowing
  import opened Conditions
  import opened Precision
  import opened Statements
  import opened Execution
  import opened FlowTyping

  /* ---------- Values where a type is expected ---------- */

  function LiteralValueOf(lit: LiteralValue): Value {
    match lit case LString(s) => VString(s) case LNumber(n) => VScalar("i32", n)
  }

  lemma LiteralLeafIff(env: Env, lit: LiteralValue, t: Type)
    requires !t.UnionT? && !t.InterT?
    ensures IsAssignable(env, LiteralT(lit), t) <==> HasType(env, LiteralValueOf(lit), t)
  {
    hide OnChain;
  }

  /** A literal type is assignable to exactly the types its value belongs to. */
  lemma {:induction false} LiteralAssignableIff(env: Env, lit: LiteralValue, t: Type)
    ensures IsAssignable(env, LiteralT(lit), t) <==> HasType(env, LiteralValueOf(lit), t)
    decreases t
  {
    if t.UnionT? || t.InterT? {
      hide BaseAssignable;
      forall i | 0 <= i < |t.arms|
        ensures IsAssignable(env, LiteralT(lit), t.arms[i]) <==> HasType(env, LiteralValueOf(lit), t.arms[i])
      {
        LiteralAssignableIff(env, lit, t.arms[i]);
      }
    } else {
      LiteralLeafIff(env, lit, t);
    }
  }

  /** What its base is assignable to, a literal is. */
  lemma {:induction false} BaseThenLiteral(env: Env, lit: LiteralValue, t: Type)
    requires IsAssignable(env, LiteralBase(lit), t)
    ensures IsAssignable(env, LiteralT(lit), t)
    decreases t
  {
    match t
    case UnionT(arms) =>
      var i :| 0 <= i < |arms| && IsAssignable(env, LiteralBase(lit), arms[i]);
      BaseThenLiteral(env, lit, arms[i]);
    case InterT(arms) =>
      forall i | 0 <= i < |arms| ensures IsAssignable(env, LiteralT(lit), arms[i]) { BaseThenLiteral(env, lit, arms[i]); }
    case _ =>
  }

  /** A literal is accepted exactly where the value it is turned into belongs. */
  lemma LiteralAcceptedIff(fn: Fn, x: Run, e: Expr, scope: Scope, expected: Type, store: Store, tick: nat)
    requires e.EInt? || e.EStr?
    ensures Accepts(fn, e, scope, expected) <==> HasType(fn.env, EvalInto(x, e, Present(expected), store, tick), expected)
  {
    hide IsAssignable;
    var lit := LiteralOf(e).value;
    LiteralAssignableIff(fn.env, lit.value, expected);
    if IsAssignable(fn.env, LiteralBase(lit.value), expected) { BaseThenLiteral(fn.env, lit.value, expected); }
    assert TypeOf(fn, e, scope) == Some(LiteralBase(lit.value));
  }

  /** Any other expression is accepted exactly where all values of its type belong. */
  lemma AcceptedIffIncluded(fn: Fn, e: Expr, scope: Scope, expected: Type)
    requires LiteralOf(e).None? && ClosedTables(fn.env) && IndexAssignable(fn.env) && PlainIndexes(fn.env)
    requires Plain(fn.env, expected) && TypeOf(fn, e, scope).Some?
    requires forall a | Leaf(a, TypeOf(fn, e, scope).value) :: Concrete(fn.env, a)
    ensures Accepts(fn, e, scope, expected) <==> Included(fn.env, TypeOf(fn, e, scope).value, expected)
  {
    hide ClosedTables, IndexAssignable, PlainIndexes, Plain, Concrete, IsAssignable;
    AssignableIffIncluded(fn.env, TypeOf(fn, e, scope).value, expected);
  }

  /** A declared variable takes what its annotation takes, whatever it starts with; and it
      can be assigned exactly if it was declared with let. */
  lemma AssignAfterDecl(fn: Fn, name: string, isLet: bool, t: Type, init: Expr, value: Expr, scope: Scope, loops: nat,
                        switches: nat)
    ensures CheckBlock(fn, [SDecl(name, isLet, Annotated(t), Some(init)), SAssign(name, Set, value)], scope, false, loops,
                       switches).ok <==>
      name !in scope && Accepts(fn, init, scope, t) && isLet && Accepts(fn, value, scope[name := Binding(t, isLet)], t)
  {
    hide Accepts;
    var decl, assign := SDecl(name, isLet, Annotated(t), Some(init)), SAssign(name, Set, value);
    var stmts := [decl, assign];
    assert stmts[1..] == [assign] && [assign][1..] == [];
    if name !in scope && Accepts(fn, init, scope, t) {
      var after := scope[name := Binding(t, isLet)];
      assert CheckStmt(fn, decl, scope, loops, switches) == Checked(false, after, true);
      assert CheckStmt(fn, assign, after, loops, switches) == Checked(false, after, isLet && Accepts(fn, value, after, t));
      assert CheckBlock(fn, [assign], after, false, loops, switches).ok <==> isLet && Accepts(fn, value, after, t);
    }
  }

  /* ---------- Guarded uses ---------- */

  lemma TestFact(c: Expr)
    requires VariableTest(c)
    ensures |TrueFacts(c)| == 1 && FalseFacts(c) == [InvertFact(TrueFacts(c)[0])]
  {
  }

  /** The variable that a test is about. */
  function Tested(c: Expr): string
    requires VariableTest(c)
  {
    TestFact(c);
    TrueFacts(c)[0].name
  }

  function FactOf(c: Expr): Fact
    requires VariableTest(c)
  {
    TestFact(c);
    TrueFacts(c)[0]
  }

  function ReturnOf(name: string): seq<Stmt> {
    [SReturn(Some(EVar(name)))]
  }

  predicate Returnable(fn: Fn, t: Type) {
    fn.ret.Present? && IsAssignable(fn.env, t, fn.ret.ty)
  }

  lemma ReturnAccepted(fn: Fn, name: string, scope: Scope, exited: bool, loops: nat, switches: nat)
    requires name in scope
    ensures var c := CheckBlock(fn, ReturnOf(name), scope, exited, loops, switches);
      c.exits && c.scope == scope && (c.ok <==> Returnable(fn, scope[name].ty))
  {
    hide IsAssignable;
    var s := ReturnOf(name)[0];
    assert ReturnOf(name)[1..] == [];
    assert CheckStmt(fn, s, scope, loops, switches) == Checked(true, scope, ReturnOk(fn, s, scope));
  }

  lemma NarrowedBy(scope: Scope, f: Fact)
    requires f.name in scope
    ensures ApplyFacts(scope, [f]) == scope[f.name := scope[f.name].(ty := Narrow(scope[f.name].ty, f))]
  {
    hide Narrow;
    assert [f][1..] == [];
  }

  lemma NothingToCheck(fn: Fn, scope: Scope, loops: nat, switches: nat)
    ensures CheckBlock(fn, [], scope, false, loops, switches) == Checked(false, scope, true)
  {
  }

  /** Behind a test, in the branch where it fails, and in the body of a loop, a variable is
      accepted exactly if its narrowed type is. */
  lemma GuardedUses(fn: Fn, c: Expr, scope: Scope, loops: nat, switches: nat)
    requires VariableTest(c) && Tested(c) in scope
    ensures var x, t, f := Tested(c), scope[Tested(c)].ty, FactOf(c);
      (CheckStmt(fn, SIf(c, ReturnOf(x), NoElse), scope, loops, switches).ok <==>
         IsBool(fn, c, scope) && Returnable(fn, Narrow(t, f)))
      && (CheckStmt(fn, SIf(c, [], ElseBlock(ReturnOf(x))), scope, loops, switches).ok <==>
            IsBool(fn, c, scope) && Returnable(fn, Narrow(t, InvertFact(f))))
      && (CheckStmt(fn, SWhile(c, ReturnOf(x)), scope, loops, switches).ok <==>
            IsBool(fn, c, scope) && Returnable(fn, Narrow(t, f)))
  {
    hide IsAssignable, TypeOf, TrueFacts, FalseFacts, Narrow, CheckBlock, ReturnOf;
    TestFact(c);
    var x, f := Tested(c), FactOf(c);
    NarrowedBy(scope, f);
    NarrowedBy(scope, InvertFact(f));
    assert TrueFacts(c) == [f];
    var yes, no := ApplyFacts(scope, TrueFacts(c)), ApplyFacts(scope, FalseFacts(c));
    ReturnAccepted(fn, x, yes, false, loops, switches);
    ReturnAccepted(fn, x, yes, false, loops + 1, switches);
    ReturnAccepted(fn, x, no, false, loops, switches);
    NothingToCheck(fn, yes, loops, switches);
  }

  /** After an if whose one branch leaves, the variable has the type that the other branch
      leaves it. */
  lemma UseAfterIf(fn: Fn, c: Expr, scope: Scope, leave: Stmt, loops: nat, switches: nat)
    requires VariableTest(c) && Tested(c) in scope && (leave.SBreak? || leave.SContinue?) && loops > 0
    ensures var x, t, f := Tested(c), scope[Tested(c)].ty, FactOf(c);
      (CheckBlock(fn, [SIf(c, [leave], NoElse)] + ReturnOf(x), scope, false, loops, switches).ok <==>
         IsBool(fn, c, scope) && Returnable(fn, Narrow(t, InvertFact(f))))
      && (CheckBlock(fn, [SIf(c, [], ElseBlock([leave]))] + ReturnOf(x), scope, false, loops, switches).ok <==>
            IsBool(fn, c, scope) && Returnable(fn, Narrow(t, f)))
  {
    hide IsAssignable, TypeOf, TrueFacts, FalseFacts, Narrow, ReturnOf, CheckStmt;
    var x, f := Tested(c), FactOf(c);
    TestFact(c);
    NarrowedBy(scope, f);
    NarrowedBy(scope, InvertFact(f));
    assert TrueFacts(c) == [f];
    LeavingIf(fn, c, scope, leave, loops, switches);
    IfThen(fn, SIf(c, [leave], NoElse), x, scope, loops, switches);
    IfThen(fn, SIf(c, [], ElseBlock([leave])), x, scope, loops, switches);
  }

  lemma IfThen(fn: Fn, s: Stmt, x: string, scope: Scope, loops: nat, switches: nat)
    requires var c := CheckStmt(fn, s, scope, loops, switches); x in c.scope && !c.exits
    ensures var c := CheckStmt(fn, s, scope, loops, switches);
      CheckBlock(fn, [s] + ReturnOf(x), scope, false, loops, switches).ok <==> c.ok && Returnable(fn, c.scope[x].ty)
  {
    hide CheckStmt, IsAssignable;
    var c := CheckStmt(fn, s, scope, loops, switches);
    assert ([s] + ReturnOf(x))[1..] == ReturnOf(x);
    ReturnAccepted(fn, x, c.scope, false, loops, switches);
  }

  lemma LeavingIf(fn: Fn, c: Expr, scope: Scope, leave: Stmt, loops: nat, switches: nat)
    requires (leave.SBreak? || leave.SContinue?) && loops > 0
    ensures CheckStmt(fn, SIf(c, [leave], NoElse), scope, loops, switches) ==
      Checked(false, ApplyFacts(scope, FalseFacts(c)), IsBool(fn, c, scope))
    ensures CheckStmt(fn, SIf(c, [], ElseBlock([leave])), scope, loops, switches) ==
      Checked(false, ApplyFacts(scope, TrueFacts(c)), IsBool(fn, c, scope))
  {
    hide TypeOf, TrueFacts, FalseFacts, ApplyFacts;
    var yes, no := ApplyFacts(scope, TrueFacts(c)), ApplyFacts(scope, FalseFacts(c));
    LeaveAccepted(fn, yes, leave, loops, switches);
    LeaveAccepted(fn, no, leave, loops, switches);
  }

  lemma LeaveAccepted(fn: Fn, scope: Scope, leave: Stmt, loops: nat, switches: nat)
    requires (leave.SBreak? || leave.SContinue?) && loops > 0
    ensures CheckBlock(fn, [leave], scope, false, loops, switches) == Checked(true, scope, true)
  {
    assert [leave][1..] == [];
  }

  /** The right operand of a conjunction is checked at the narrowed type. */
  lemma UseInConjunction(fn: Fn, c: Expr, scope: Scope)
    requires VariableTest(c) && Tested(c) in scope
    ensures TypeOf(fn, EBin(And, c, EVar(Tested(c))), scope) == Some(BOOL) <==>
      IsBool(fn, c, scope) && Narrow(scope[Tested(c)].ty, FactOf(c)) == BOOL
  {
    hide Narrow, TrueFacts;
    TestFact(c);
    assert TrueFacts(c) == [FactOf(c)];
    NarrowedBy(scope, FactOf(c));
  }

  lemma {:induction false} NarrowedLeaf(t: Type, f: Fact, a: Type)
    requires Leaf(a, Narrow(t, f))
    ensures Leaf(a, t) || a == NULL_TYPE
  {
    hide TypesEqual, TypeofTag;
    var arms := Flatten(t);
    FlattenLeaves(a, t);
    match f
    case TypeofFact(_, tag, positive) => KeptLeaf(arms, arm => (TypeofTag(arm) == Some(tag)) == positive, a);
    case NullFact(_, _) => KeptLeaf(arms, arm => arm != NULL_TYPE, a);
    case IsFact(_, target, positive) =>
      KeptLeaf(arms, arm => TypesEqual(arm, target) == positive, a);
      KeptLeaf(arms, arm => arm != NULL_TYPE, a);
  }

  lemma KeptLeaf(arms: seq<Type>, p: Type -> bool, a: Type)
    requires forall b | b in arms :: !b.UnionT?
    ensures Leaf(a, MakeUnion(Keep(arms, p))) ==> a in arms
  {
    var kept := Keep(arms, p);
    FlattenLeaves(a, MakeUnion(kept));
    MakeUnionNormal(kept);
    FlattenAllOfFlat(kept);
  }

  /** Where the arms decide the test, a guarded use is accepted exactly if every value that
      passes the test belongs. */
  lemma GuardedUseIff(env: Env, t: Type, f: Fact, expected: Type)
    requires ClosedTables(env) && IndexAssignable(env) && PlainIndexes(env) && Plain(env, expected)
    requires Splits(t, f) && forall a | Leaf(a, t) :: Concrete(env, a)
    ensures IsAssignable(env, Narrow(t, f), expected) <==>
      forall v | HasType(env, v, t) && FactTrue(env, f, v) :: HasType(env, v, expected)
  {
    hide ClosedTables, IndexAssignable, PlainIndexes, Plain, IsAssignable, HasType, Narrow, FactTrue, Splits, Leaf;
    var narrowed := Narrow(t, f);
    forall a | Leaf(a, narrowed) ensures Concrete(env, a) { NarrowedLeaf(t, f, a); }
    AssignableIffIncluded(env, narrowed, expected);
    forall v ensures HasType(env, v, narrowed) <==> HasType(env, v, t) && FactTrue(env, f, v) { NarrowExact(env, v, t, f); }
  }

  /** Which tests have a type: the variable is known, can be null where it is compared with
      null, and has a tag where its tag is asked for. */
  lemma TestTypedIff(fn: Fn, c: Expr, scope: Scope)
    requires VariableTest(c)
    ensures IsBool(fn, c, scope) <==>
      Tested(c) in scope
      && match FactOf(c)
         case TypeofFact(_, _, _) => HasTag(scope[Tested(c)].ty)
         case NullFact(_, _) => NullComparable(scope[Tested(c)].ty)
         case IsFact(_, _, _) => true
  {
    hide NullComparable, TypeofTag, SupportsEquality;
    TestFact(c);
    StringsCompare();
    EqualRefl(STRING);
    if c.EBin? {
      var l, r := c.left, c.right;
      assert IsBool(fn, c, scope) <==>
        TypeOf(fn, l, scope).Some? && TypeOf(fn, r, scope).Some?
        && EqualityAllowed(fn.env, TypeOf(fn, l, scope).value, TypeOf(fn, r, scope).value);
      if Compares(l, r) { ComparedTypes(fn, l, r, scope); } else { ComparedTypes(fn, r, l, scope); }
    } else {
      assert Tested(c) == c.value.name;
      assert TypeOf(fn, c.value, scope).Some? <==> c.value.name in scope;
    }
  }

  /** The checker knows a tag for `typeof` of the type. */
  predicate HasTag(t: Type) {
    TypeofTag(t).Some? || t.UnionT?
  }

  lemma ComparedTypes(fn: Fn, a: Expr, b: Expr, scope: Scope)
    requires Compares(a, b)
    ensures TypeOf(fn, b, scope) == Some(if b.ENull? then NULL_TYPE else STRING)
    ensures a.EVar? ==> TypeOf(fn, a, scope) == if a.name in scope then Some(scope[a.name].ty) else None
    ensures a.ETypeof? ==>
      (TypeOf(fn, a, scope) == if a.operand.name in scope && HasTag(scope[a.operand.name].ty) then Some(STRING) else None)
  {
  }

  lemma StringsCompare()
    ensures SupportsEquality(STRING)
  {
    assert EQUALITY_PRIMS[14] == "string";
  }

  /** Which operands an equality takes does not depend on their order. */
  lemma EqualityIsSymmetric(env: Env, l: Type, r: Type)
    ensures EqualityAllowed(env, l, r) <==> EqualityAllowed(env, r, l)
  {
    hide IsAssignable, NullComparable;
    EqualIsEquivalence(l, r, l);
    if TypesEqual(l, r) { EqualitySupported(l, r); }
  }

  lemma EqualitySupported(l: Type, r: Type)
    requires TypesEqual(l, r)
    ensures SupportsEquality(l) <==> SupportsEquality(r)
  {
  }

  /** A subject can be switched on exactly if it can be compared with itself, null apart. */
  lemma SwitchIsEquality(fn: Fn, e: Expr, scope: Scope, loops: nat, switches: nat)
    ensures CheckStmt(fn, SSwitch(e, []), scope, loops, switches).ok <==>
      IsBool(fn, EBin(EqOp, e, e), scope) && TypeOf(fn, e, scope) != Some(NULL_TYPE)
  {
    if TypeOf(fn, e, scope).Some? { EqualRefl(TypeOf(fn, e, scope).value); }
  }

  /** A class can be thrown exactly if all its instances are errors. */
  lemma ThrowableIff(env: Env, cls: string)
    requires ClosedTables(env) && cls in env.classes
    ensures Throwable(env, Some(NominalT(ClassKind, cls))) <==>
      Included(env, NominalT(ClassKind, cls), NominalT(ClassKind, ERROR_CLASS))
  {
    hide ClosedTables;
    ClassAssignableIff(env, cls, NominalT(ClassKind, ERROR_CLASS));
    ClassIsNominal(env, cls, NominalT(ClassKind, ERROR_CLASS));
  }

  /** A body is accepted exactly when it checks and, in a function with a result, some
      statement of it returns a value on all its paths; where in the body does not matter. */
  lemma BodyAcceptedIff(fn: Fn, body: seq<Stmt>, params: Scope)
    ensures BodyAccepted(fn, body, params) <==>
      CheckBlock(fn, body, params, false, 0, 0).ok
      && (fn.ret.Present? ==> exists i | 0 <= i < |body| :: StmtReturnsValue(body[i]))
  {
    hide CheckBlock;
    SomeReturns(body);
    if body != [] && body[|body| - 1].SReturn? && body[|body| - 1].result.Some? {
      assert StmtReturnsValue(body[|body| - 1]);
    }
  }

  lemma {:induction false} SomeReturns(body: seq<Stmt>)
    ensures BodyReturnsValue(body) <==> exists i | 0 <= i < |body| :: StmtReturnsValue(body[i])
    decreases |body|
  {
    hide StmtReturnsValue;
    if body != [] {
      var rest := body[1..];
      SomeReturns(rest);
      assert forall i | 0 <= i < |rest| :: rest[i] == body[i + 1];
      assert forall i | 0 < i < |body| :: body[i] == rest[i - 1];
    }
  }

  /* ---------- Nothing gets stuck ---------- */

  /** The variables that the statement itself reads, before any statement inside it. */
  function Reads(s: Stmt): set<string> {
    match s
    case SDecl(_, _, _, init) => if init.Some? then Uses(init.value) else {}
    case SAssign(name, _, value) => {name} + Uses(value)
    case SUpdate(name, _) => {name}
    case SExpr(e) => Uses(e)
    case SReturn(result) => if result.Some? then Uses(result.value) else {}
    case SIf(cond, _, _) => Uses(cond)
    case SWhile(cond, _) => Uses(cond)
    case SForIn(_, _, iterable, _) => Uses(iterable)
    case SSwitch(subject, _) => Uses(subject)
    case SThrow(e) => Uses(e)
    case _ => {}
  }

  /** The statement has no meaning in this store: it reads a variable without a value, tests
      something that is no bool, walks something that is no array, throws something that is
      no error, or does arithmetic on something that is no number. */
  predicate Stuck(x: Run, s: Stmt, store: Store, tick: nat) {
    !(Reads(s) <= store.Keys)
    || match s
       case SIf(cond, _, _) => !Eval(x.ctx, cond, store, tick).VBool?
       case SWhile(cond, _) => !Eval(x.ctx, cond, store, tick).VBool?
       case SForIn(_, _, iterable, _) => !Eval(x.ctx, iterable, store, tick).VArray?
       case SThrow(e) => !InstanceOf(x.ctx.env, Eval(x.ctx, e, store, tick), ERROR_CLASS)
       case SAssign(name, op, value) =>
         op != Set && !(Read(store, name).VScalar? && Eval(x.ctx, value, store, tick).VScalar?)
       case SUpdate(name, _) => !Read(store, name).VScalar?
       case _ => false
  }

  lemma {:induction false} TypedUses(fn: Fn, e: Expr, scope: Scope)
    requires TypeOf(fn, e, scope).Some?
    ensures Uses(e) <= scope.Keys
    decreases e
  {
    hide ApplyFacts, EqualityAllowed;
    match e
    case ETypeof(x) => TypedUses(fn, x, scope);
    case EIs(x, _) => TypedUses(fn, x, scope);
    case ENot(x) => TypedUses(fn, x, scope);
    case EBin(op, l, r) =>
      TypedUses(fn, l, scope);
      TypedUses(fn, r, if op == And then ApplyFacts(scope, TrueFacts(l)) else scope);
      SameNames(scope, TrueFacts(l));
    case _ =>
  }

  lemma {:induction false} SameNames(scope: Scope, fs: seq<Fact>)
    ensures ApplyFacts(scope, fs).Keys == scope.Keys
    decreases |fs|
  {
    hide Narrow;
    if fs != [] { SameNames(ApplyFact(scope, fs[0]), fs[1..]); }
  }

  lemma AcceptedUses(fn: Fn, e: Expr, scope: Scope, expected: Type)
    requires Accepts(fn, e, scope, expected)
    ensures Uses(e) <= scope.Keys
  {
    hide TypeOf, IsAssignable;
    if LiteralOf(e).None? { TypedUses(fn, e, scope); }
  }

  lemma StatementReads(fn: Fn, s: Stmt, scope: Scope, loops: nat, switches: nat)
    requires CheckStmt(fn, s, scope, loops, switches).ok
    ensures Reads(s) <= scope.Keys
  {
    hide TypeOf, Accepts, CheckBlock, CheckAlternate, CheckCases, SupportsEquality, Throwable, ApplyFacts;
    match s
    case SDecl(_, _, ann, init) =>
      if init.Some? && ann.Annotated? { AcceptedUses(fn, init.value, scope, ann.ty); }
      if init.Some? && ann.NoAnnotation? { TypedUses(fn, init.value, scope); }
    case SAssign(name, _, value) => AcceptedUses(fn, value, scope, scope[name].ty);
    case SReturn(result) => if result.Some? { AcceptedUses(fn, result.value, scope, fn.ret.ty); }
    case SExpr(e) => TypedUses(fn, e, scope);
    case SIf(cond, _, _) => TypedUses(fn, cond, scope);
    case SWhile(cond, _) => TypedUses(fn, cond, scope);
    case SForIn(_, _, iterable, _) => TypedUses(fn, iterable, scope);
    case SSwitch(subject, _) => TypedUses(fn, subject, scope);
    case SThrow(e) => ThrownTyped(fn, e, scope);
    case _ =>
  }

  lemma ThrownTyped(fn: Fn, e: Expr, scope: Scope)
    requires Throwable(fn.env, TypeOf(fn, e, scope))
    ensures Uses(e) <= scope.Keys
  {
    TypedUses(fn, e, scope);
  }

  lemma ThrownIsError(fn: Fn, x: Run, e: Expr, scope: Scope, store: Store, tick: nat)
    requires Faithful(fn, x) && Agrees(fn.env, scope, store) && Regular(scope) && Throwable(fn.env, TypeOf(fn, e, scope))
    ensures InstanceOf(fn.env, Eval(x.ctx, e, store, tick), ERROR_CLASS)
  {
    hide IndexAssignable, ClosedClass, TypeOf, Eval;
    ExprSound(fn, x, e, scope, store, tick);
    var t, v := TypeOf(fn, e, scope).value, Eval(x.ctx, e, store, tick);
    assert InstanceOf(fn.env, v, t.name);
    if t.name != ERROR_CLASS {
      ClosedAt(fn.env, v.cls);
      ChainTransitive(fn.env, fn.env.classes[v.cls], t.name, ERROR_CLASS);
    }
  }

  lemma CompoundIsNumeric(fn: Fn, x: Run, s: Stmt, scope: Scope, store: Store, tick: nat)
    requires Faithful(fn, x) && Agrees(fn.env, scope, store) && Regular(scope)
    requires s.SAssign? && AssignmentOk(fn, s, scope) && s.op != Set
    ensures store[s.name].VScalar? && Eval(x.ctx, s.value, store, tick).VScalar?
  {
    hide Faithful, Accepts, Regular, Eval;
    var t := scope[s.name].ty;
    NumericScalar(fn.env, store[s.name], t);
    AcceptsSound(fn, x, s.value, scope, t, store, tick);
    NumericScalar(fn.env, EvalInto(x, s.value, Present(t), store, tick), t);
    if s.value.EInt? { IntValue(x, s.value, store, tick); }
  }

  lemma NumericScalar(env: Env, v: Value, t: Type)
    requires HasType(env, v, t) && IsNumeric(t)
    ensures v.VScalar?
  {
  }

  lemma BoolValue(fn: Fn, x: Run, e: Expr, scope: Scope, store: Store, tick: nat)
    requires Faithful(fn, x) && Agrees(fn.env, scope, store) && Regular(scope) && IsBool(fn, e, scope)
    ensures Eval(x.ctx, e, store, tick).VBool?
  {
    hide Faithful, Eval, TypeOf;
    ExprSound(fn, x, e, scope, store, tick);
  }

  lemma ArrayValue(fn: Fn, x: Run, e: Expr, scope: Scope, store: Store, tick: nat)
    requires Faithful(fn, x) && Agrees(fn.env, scope, store) && Regular(scope)
    requires TypeOf(fn, e, scope).Some? && TypeOf(fn, e, scope).value.ArrayT?
    ensures Eval(x.ctx, e, store, tick).VArray?
  {
    hide Faithful, Eval, TypeOf;
    ExprSound(fn, x, e, scope, store, tick);
  }

  /** Where the variables in scope have values of their types, an accepted statement does not
      get stuck. */
  lemma AcceptedNotStuck(fn: Fn, x: Run, s: Stmt, scope: Scope, loops: nat, switches: nat, store: Store, tick: nat)
    requires Faithful(fn, x) && Agrees(fn.env, scope, store) && Regular(scope)
    requires CheckStmt(fn, s, scope, loops, switches).ok
    ensures !Stuck(x, s, store, tick)
  {
    hide HasType, Faithful, Regular, Eval, TypeOf, Accepts, Throwable, CheckBlock, CheckAlternate, ApplyFacts, InstanceOf;
    StatementReads(fn, s, scope, loops, switches);
    assert x.ctx.env == fn.env by { FaithfulEnv(fn, x); }
    match s
    case SIf(cond, _, _) => BoolValue(fn, x, cond, scope, store, tick);
    case SWhile(cond, _) => BoolValue(fn, x, cond, scope, store, tick);
    case SForIn(_, _, iterable, _) => ArrayValue(fn, x, iterable, scope, store, tick);
    case SThrow(e) => ThrownIsError(fn, x, e, scope, store, tick);
    case SAssign(name, op, _) => if op != Set { CompoundIsNumeric(fn, x, s, scope, store, tick); }
    case SUpdate(name, _) => NumericScalar(fn.env, store[name], scope[name].ty);
    case _ =>
  }

  /** Nor does the test of a for loop, wherever the variables in scope there have values. */
  lemma ForTestIsBool(fn: Fn, x: Run, s: Stmt, scope: Scope, loops: nat, switches: nat, store: Store, tick: nat)
    requires s.SFor? && s.test.Some? && CheckStmt(fn, s, scope, loops, switches).ok
    requires var inner := CheckMaybe(fn, s.first, scope, loops, switches).scope;
      Faithful(fn, x) && Agrees(fn.env, inner, store) && Regular(inner)
    ensures Eval(x.ctx, s.test.value, store, tick).VBool?
  {
    hide Faithful, Agrees, Regular, CheckMaybe, CheckBlock, TypeOf, Eval;
    BoolValue(fn, x, s.test.value, CheckMaybe(fn, s.first, scope, loops, switches).scope, store, tick);
  }

  lemma FaithfulEnv(fn: Fn, x: Run)
    requires Faithful(fn, x)
    ensures x.ctx.env == fn.env
  {
  }

  /* ---------- The labels of a switch ---------- */

  /** Labels are literals, no two of them have one value, and there is one default at most. */
  predicate LabelsApart(cases: seq<Case>) {
    (forall i | 0 <= i < |cases| && cases[i].Labelled? :: IsLabel(cases[i].test))
    && forall i, j | 0 <= i < j < |cases| :: !SameCase(cases[i], cases[j])
  }

  predicate SameCase(a: Case, b: Case) {
    (a.Default? && b.Default?) || (a.Labelled? && b.Labelled? && LabelValue(a.test) == LabelValue(b.test))
  }

  /** And they are values of the type of the subject. */
  predicate LabelsFit(fn: Fn, cases: seq<Case>, subject: Type) {
    forall i | 0 <= i < |cases| && cases[i].Labelled? :: HasType(fn.env, LabelValue(cases[i].test), subject)
  }

  predicate IsLabel(e: Expr) {
    e.EInt? || e.EStr? || e.EBool?
  }

  function LabelValue(e: Expr): Value {
    match e
    case EInt(n) => VScalar("i32", n)
    case EStr(s) => VString(s)
    case EBool(b) => VBool(b)
    case _ => VUnset
  }

  lemma LabelFits(fn: Fn, test: Expr, scope: Scope, subject: Type, seen: set<Expr>)
    requires ClosedTables(fn.env) && IndexAssignable(fn.env) && LabelOk(fn, test, scope, subject, seen)
    ensures HasType(fn.env, LabelValue(test), subject)
  {
    hide ClosedTables, IndexAssignable, IsAssignable;
    AssignableSound(fn.env, TypeOf(fn, test, scope).value, subject, LabelValue(test));
  }

  lemma {:induction false} CasesApart(fn: Fn, cases: seq<Case>, scope: Scope, subject: Type, seen: set<Expr>,
                                      hasDefault: bool, loops: nat, switches: nat)
    requires ClosedTables(fn.env) && IndexAssignable(fn.env)
    requires CheckCases(fn, cases, scope, subject, seen, hasDefault, loops, switches).ok
    ensures LabelsApart(cases) && LabelsFit(fn, cases, subject)
    ensures forall i | 0 <= i < |cases| :: if cases[i].Labelled? then cases[i].test !in seen else !hasDefault
    decreases |cases|
  {
    hide ClosedTables, IndexAssignable, CheckBlock, HasType, IsAssignable, TypeOf;
    if cases != [] {
      var c, rest := cases[0], cases[1..];
      var body := CheckBlock(fn, c.body, scope, false, loops, switches + 1);
      assert forall i | 0 < i < |cases| :: cases[i] == rest[i - 1];
      CasesApart(fn, rest, body.scope, subject, if c.Default? then seen else seen + {c.test}, hasDefault || c.Default?, loops,
                 switches);
      if c.Labelled? { LabelFits(fn, c.test, scope, subject, seen); }
    }
  }

  /** So in an accepted switch the order of the labels does not matter: it jumps to a label
      if and only if that has the value. */
  lemma SwitchTargetIff(fn: Fn, x: Run, s: Stmt, scope: Scope, loops: nat, switches: nat, store: Store, tick: nat,
                        v: Value, i: nat)
    requires ClosedTables(fn.env) && IndexAssignable(fn.env)
    requires s.SSwitch? && CheckStmt(fn, s, scope, loops, switches).ok && i < |s.cases|
    ensures LabelsApart(s.cases) && LabelsFit(fn, s.cases, TypeOf(fn, s.subject, scope).value)
    ensures TargetCase(x, s.cases, v, store, tick) == Some(i) <==> s.cases[i].Labelled? && LabelValue(s.cases[i].test) == v
  {
    hide ClosedTables, IndexAssignable, CheckCases, HasType, TypeOf, SupportsEquality;
    var t := TypeOf(fn, s.subject, scope).value;
    CasesApart(fn, s.cases, scope, t, {}, false, loops, switches);
    TargetOfApart(x, s.cases, v, store, tick, i);
  }

  lemma {:induction false} TargetOfApart(x: Run, cases: seq<Case>, v: Value, store: Store, tick: nat, i: nat)
    requires LabelsApart(cases) && i < |cases|
    ensures TargetCase(x, cases, v, store, tick) == Some(i) <==> cases[i].Labelled? && LabelValue(cases[i].test) == v
    decreases |cases|
  {
    hide LabelsApart, LabelValue, IsLabel, Eval, TargetCase;
    RestApart(cases, i);
    TargetFront(x, cases, v, store, tick);
    if i > 0 { TargetOfApart(x, cases[1..], v, store, tick, i - 1); }
  }

  lemma TargetFront(x: Run, cases: seq<Case>, v: Value, store: Store, tick: nat)
    requires cases != [] && (cases[0].Labelled? ==> IsLabel(cases[0].test))
    ensures TargetCase(x, cases, v, store, tick) ==
      if cases[0].Labelled? && LabelValue(cases[0].test) == v then Some(0)
      else
        var later := TargetCase(x, cases[1..], v, store, tick);
        if later.Some? then Some(later.value + 1) else None
  {
    hide LabelValue, IsLabel, Eval;
    if cases[0].Labelled? { LabelEval(x, cases[0].test, store, tick); }
  }

  lemma RestApart(cases: seq<Case>, i: nat)
    requires LabelsApart(cases) && i < |cases|
    ensures LabelsApart(cases[1..]) && (cases[0].Labelled? ==> IsLabel(cases[0].test))
    ensures i > 0 ==> !SameCase(cases[0], cases[i]) && cases[1..][i - 1] == cases[i]
  {
    hide LabelValue, IsLabel, SameCase;
    var rest := cases[1..];
    assert forall k | 0 <= k < |rest| :: rest[k] == cases[k + 1];
  }

  lemma LabelEval(x: Run, e: Expr, store: Store, tick: nat)
    requires IsLabel(e)
    ensures Eval(x.ctx, e, store, tick) == LabelValue(e)
  {
  }
}
