/** Accepted programs outside the sound fragment whose runs leave the checker's types. */
module FlowLimits {
  import opened Common
  import opened Types
  import opened Assignability
  import opened Narrowing
  import opened Conditions
  import opened Statements
  import opened Execution

  const MAYBE_STRING := UnionT([Prim("string"), Prim("null")])

  function Params(): Scope {
    map["x" := Binding(MAYBE_STRING, true), "y" := Binding(MAYBE_STRING, true)]
  }

  function Narrowed(): Scope {
    Params()["x" := Binding(STRING, true)]
  }

  function VoidFn(): Fn {
    Fn(Env(map[], map[]), map[0 := NominalT(ClassKind, ERROR_CLASS)], map[], Absent)
  }

  lemma MaybeStringArms()
    ensures Flatten(MAYBE_STRING) == [STRING, NULL_TYPE]
    ensures StripNull(MAYBE_STRING) == STRING
    ensures forall env, v :: HasType(env, v, MAYBE_STRING) <==> v.VString? || v.VNull?
  {
    var arms := MAYBE_STRING.arms;
    assert arms[1..] == [NULL_TYPE] && [NULL_TYPE][1..] == [];
    assert FlattenAll(arms) == [STRING] + FlattenAll([NULL_TYPE]) == [STRING, NULL_TYPE];
    var p := (arm: Type) => arm != NULL_TYPE;
    KeepOne(p);
    assert FlattenAll([STRING]) == [STRING] by { FlattenAllOfFlat([STRING]); }
    AddArmsOfDistinct([], [STRING]);
    assert [] + [STRING] == [STRING];
    forall env, v ensures HasType(env, v, MAYBE_STRING) <==> v.VString? || v.VNull? {
      if v.VString? { assert HasType(env, v, arms[0]); }
      if v.VNull? { assert HasType(env, v, arms[1]); }
    }
  }

  lemma KeepOne(p: Type -> bool)
    requires p(STRING) && !p(NULL_TYPE)
    ensures Keep([STRING, NULL_TYPE], p) == [STRING]
  {
    assert [STRING, NULL_TYPE][1..] == [NULL_TYPE] && [NULL_TYPE][1..] == [];
    assert Keep([NULL_TYPE], p) == Keep([], p) == [];
  }

  const X_IS_NULL := EBin(EqOp, EVar("x"), ENull)

  lemma NullTestFacts(name: string)
    ensures var e := EBin(EqOp, EVar(name), ENull);
      TrueFacts(e) == [NullFact(name, false)] && FalseFacts(e) == [NullFact(name, true)]
    ensures TrueFacts(EBin(NeOp, EVar(name), ENull)) == [NullFact(name, true)]
  {
    assert InvertFacts([NullFact(name, false)]) == [NullFact(name, true)];
  }

  lemma ApplyOne(scope: Scope, f: Fact)
    ensures ApplyFacts(scope, [f]) == ApplyFact(scope, f)
  {
    assert [f][1..] == [];
  }

  function Guard(jump: Stmt): Stmt {
    SIf(X_IS_NULL, [jump], NoElse)
  }

  /** The scope of the branch where `x` is null. */
  function TestedNull(): Scope {
    Params()["x" := Binding(NULL_TYPE, true)]
  }

  lemma GuardScopes()
    ensures ApplyFacts(Params(), TrueFacts(X_IS_NULL)) == TestedNull()
    ensures ApplyFacts(Params(), FalseFacts(X_IS_NULL)) == Narrowed()
  {
    hide HasType, Flatten, StripNull, TrueFacts, FalseFacts;
    MaybeStringArms();
    NullTestFacts("x");
    ApplyOne(Params(), NullFact("x", false));
    ApplyOne(Params(), NullFact("x", true));
    assert Params()["x"].ty == MAYBE_STRING;
  }

  lemma NullTestIsBool(name: string, op: BinOp, scope: Scope)
    requires name in scope && scope[name].ty == MAYBE_STRING && (op == EqOp || op == NeOp)
    ensures IsBool(VoidFn(), EBin(op, EVar(name), ENull), scope)
  {
    hide Flatten, ApplyFacts, TypesEqual, IsAssignable;
    var fn := VoidFn();
    assert TypeOf(fn, EVar(name), scope) == Some(MAYBE_STRING) && TypeOf(fn, ENull, scope) == Some(NULL_TYPE);
    assert NullComparable(MAYBE_STRING);
    assert EqualityAllowed(fn.env, MAYBE_STRING, NULL_TYPE);
  }

  predicate Jumps(jump: Stmt, loops: nat, switches: nat) {
    (jump.SBreak? && (loops > 0 || switches > 0)) || jump == SThrow(ECall(0))
  }

  lemma JumpChecked(jump: Stmt, scope: Scope, loops: nat, switches: nat)
    requires Jumps(jump, loops, switches)
    ensures CheckBlock(VoidFn(), [jump], scope, false, loops, switches) == Checked(true, scope, true)
  {
    var fn := VoidFn();
    assert TypeOf(fn, ECall(0), scope) == Some(NominalT(ClassKind, ERROR_CLASS));
    assert CheckStmt(fn, jump, scope, loops, switches) == Checked(true, scope, true);
    assert [jump][1..] == [];
    assert CheckBlock(fn, [], scope, true, loops, switches) == Checked(true, scope, true);
  }

  lemma GuardChecked(jump: Stmt, loops: nat, switches: nat)
    requires Jumps(jump, loops, switches)
    ensures CheckStmt(VoidFn(), Guard(jump), Params(), loops, switches) == Checked(false, Narrowed(), true)
  {
    hide IsBool, TypeOf, TrueFacts, FalseFacts, ApplyFacts, CheckBlock, Throwable, Flatten;
    GuardScopes();
    NullTestIsBool("x", EqOp, Params());
    JumpChecked(jump, TestedNull(), loops, switches);
    assert CheckAlternate(VoidFn(), NoElse, Narrowed(), loops, switches) == Checked(false, Narrowed(), true);
  }

  lemma GuardedBlockChecked(jump: Stmt, loops: nat, switches: nat)
    requires Jumps(jump, loops, switches)
    ensures CheckBlock(VoidFn(), [Guard(jump)], Params(), false, loops, switches) == Checked(false, Narrowed(), true)
  {
    GuardChecked(jump, loops, switches);
    assert [Guard(jump)][1..] == [];
    assert CheckBlock(VoidFn(), [], Narrowed(), false, loops, switches) == Checked(false, Narrowed(), true);
  }

  function NullStore(): Store {
    map["x" := VNull, "y" := VNull]
  }

  /** A run in which nothing throws on its own. */
  ghost predicate Quiet(x: Run) {
    forall tick: nat :: !x.ctx.throwsAt(tick)
  }

  lemma GuardTaken(x: Run, jump: Stmt, tick: nat, fuel: nat)
    requires Quiet(x) && (jump.SBreak? || jump.SThrow?)
    ensures ExecBlock(x, [Guard(jump)], NullStore(), tick, fuel)
         == Outcome(if jump.SBreak? then Broke else Threw, NullStore(), tick + 2)
  {
    var store := NullStore();
    assert Eval(x.ctx, EVar("x"), store, tick) == VNull;
    assert Holds(x.ctx, X_IS_NULL, store, tick);
    var o := ExecStmt(x, jump, store, tick + 1, fuel);
    assert ExecBlock(x, [jump], store, tick + 1, fuel) == o;
    assert ExecStmt(x, Guard(jump), store, tick, fuel) == o;
  }

  /** The checker's scope is wrong about `x` after a run with `x` null. */
  ghost predicate Disagrees(x: Run, body: seq<Stmt>) {
    BodyAccepted(VoidFn(), body, Params())
    && Agrees(VoidFn().env, Params(), NullStore())
    && var o := ExecBlock(x, body, NullStore(), 0, 1);
       o.kind.Normal? && !Agrees(VoidFn().env, CheckBlock(VoidFn(), body, Params(), false, 0, 0).scope, o.store)
  }

  lemma SingleStmtDisagrees(x: Run, s: Stmt)
    requires CheckStmt(VoidFn(), s, Params(), 0, 0) == Checked(false, Narrowed(), true)
    requires ExecStmt(x, s, NullStore(), 0, 1).kind.Normal? && Read(ExecStmt(x, s, NullStore(), 0, 1).store, "x") == VNull
    ensures Disagrees(x, [s])
  {
    hide Flatten, StripNull, CheckStmt, ExecStmt;
    MaybeStringArms();
    assert [s][1..] == [];
    var fn := VoidFn();
    assert CheckBlock(fn, [], Narrowed(), false, 0, 0) == Checked(false, Narrowed(), true);
    assert CheckBlock(fn, [s], Params(), false, 0, 0) == Checked(false, Narrowed(), true);
    var o := ExecStmt(x, s, NullStore(), 0, 1);
    assert ExecBlock(x, [s], NullStore(), 0, 1) == ExecBlock(x, [], o.store, o.tick, 1);
    assert "x" in Narrowed() && !HasType(fn.env, VNull, Narrowed()["x"].ty);
  }

  const GUARDED_FOR := SFor(NoStmt, None, NoStmt, [Guard(SBreak)])

  lemma ForChecked()
    ensures CheckStmt(VoidFn(), GUARDED_FOR, Params(), 0, 0) == Checked(false, Narrowed(), true)
  {
    hide CheckBlock, Guard, Params, Narrowed, IsBool;
    GuardedBlockChecked(SBreak, 1, 0);
  }

  lemma ForRuns(x: Run)
    requires Quiet(x)
    ensures ExecStmt(x, GUARDED_FOR, NullStore(), 0, 1) == Outcome(Normal, NullStore(), 4)
  {
    hide ExecBlock, Guard, NullStore;
    GuardTaken(x, SBreak, 2, 1);
    assert ExecForLoop(x, GUARDED_FOR, NullStore(), 1, 1) == Outcome(Normal, NullStore(), 4);
  }

  /** A `for` body shares the scope of the loop: breaking out on null still narrows. */
  lemma ForLeaksNarrowing(x: Run)
    requires Quiet(x)
    ensures Disagrees(x, [GUARDED_FOR])
  {
    hide CheckStmt, ExecStmt, Disagrees, GUARDED_FOR;
    ForChecked();
    ForRuns(x);
    SingleStmtDisagrees(x, GUARDED_FOR);
  }

  const GUARDED_CASES := [Default([Guard(SBreak)])]
  const GUARDED_SWITCH := SSwitch(EBool(true), GUARDED_CASES)

  lemma SwitchChecked()
    ensures CheckStmt(VoidFn(), GUARDED_SWITCH, Params(), 0, 0) == Checked(false, Narrowed(), true)
  {
    hide CheckBlock, Guard, Params, Narrowed, LabelOk;
    var fn := VoidFn();
    GuardedBlockChecked(SBreak, 0, 1);
    assert GUARDED_CASES[1..] == [];
    assert CheckCases(fn, [], Narrowed(), BOOL, {}, true, 0, 0) == Checked(false, Narrowed(), true);
    assert CheckCases(fn, GUARDED_CASES, Params(), BOOL, {}, false, 0, 0) == Checked(false, Narrowed(), true);
    assert TypeOf(fn, EBool(true), Params()) == Some(BOOL) && SupportsEquality(BOOL);
  }

  lemma SwitchRuns(x: Run)
    requires Quiet(x)
    ensures ExecStmt(x, GUARDED_SWITCH, NullStore(), 0, 1) == Outcome(Normal, NullStore(), 4)
  {
    hide ExecBlock, Guard, NullStore;
    GuardTaken(x, SBreak, 2, 1);
    assert TargetCase(x, [], VBool(true), NullStore(), 1) == None;
    assert TargetCase(x, GUARDED_CASES, VBool(true), NullStore(), 1) == None && DefaultCase(GUARDED_CASES) == Some(0);
    assert GUARDED_CASES[0..] == GUARDED_CASES;
    assert ExecCases(x, GUARDED_CASES, NullStore(), 2, 1) == Outcome(Broke, NullStore(), 4);
    assert ExecSwitch(x, GUARDED_SWITCH, NullStore(), 1, 1) == Outcome(Normal, NullStore(), 4);
  }

  /** So do the cases of a `switch`. */
  lemma SwitchLeaksNarrowing(x: Run)
    requires Quiet(x)
    ensures Disagrees(x, [GUARDED_SWITCH])
  {
    hide CheckStmt, ExecStmt, Disagrees, GUARDED_SWITCH;
    SwitchChecked();
    SwitchRuns(x);
    SingleStmtDisagrees(x, GUARDED_SWITCH);
  }

  const RAISE := SThrow(ECall(0))
  const GUARDED_TRY := STry([Guard(RAISE)], Catch("e", []), NoBlock)

  lemma TryChecked()
    ensures CheckStmt(VoidFn(), GUARDED_TRY, Params(), 0, 0) == Checked(false, Narrowed(), true)
  {
    hide Guard, Params, Narrowed, CheckStmt;
    var fn := VoidFn();
    GuardedBlockChecked(RAISE, 0, 0);
    var inner := Narrowed()["e" := Binding(NominalT(ClassKind, ERROR_CLASS), false)];
    assert CheckBlock(fn, [], inner, false, 0, 0) == Checked(false, inner, true);
    assert CheckTry(fn, GUARDED_TRY, Params(), 0, 0) == Checked(false, Narrowed(), true);
    TryStmtChecked(Params());
  }

  lemma TryStmtChecked(scope: Scope)
    ensures CheckStmt(VoidFn(), GUARDED_TRY, scope, 0, 0) == CheckTry(VoidFn(), GUARDED_TRY, scope, 0, 0)
  {
    hide CheckTry;
  }

  lemma TryRuns(x: Run)
    requires Quiet(x)
    ensures var o := ExecStmt(x, GUARDED_TRY, NullStore(), 0, 1);
      o.kind.Normal? && o.store == NullStore()["e" := VInstance(ERROR_CLASS)]
  {
    hide Guard, NullStore;
    GuardTaken(x, RAISE, 1, 1);
    var caught := NullStore()["e" := VInstance(ERROR_CLASS)];
    assert ExecBlock(x, [], caught, 3, 1) == Outcome(Normal, caught, 3);
    assert ExecTry(x, GUARDED_TRY, NullStore(), 1, 1) == Outcome(Normal, caught, 3);
    assert !x.ctx.throwsAt(0);
  }

  /** And the body of a `try`, whose throw the catch block swallows. */
  lemma TryLeaksNarrowing(x: Run)
    requires Quiet(x)
    ensures Disagrees(x, [GUARDED_TRY])
  {
    hide CheckStmt, ExecStmt, Disagrees, GUARDED_TRY;
    TryChecked();
    TryRuns(x);
    SingleStmtDisagrees(x, GUARDED_TRY);
  }

  /** A declaration without initializer is accepted for every type, and right about the
      variable exactly when zero fits the type. */
  lemma UninitializedLocalIff(fn: Fn, x: Run, name: string, t: Type, scope: Scope, store: Store, tick: nat, fuel: nat)
    requires NoEmptyIntersection(t) && name !in scope && Agrees(fn.env, scope, store) && !x.ctx.throwsAt(tick)
    ensures var s := SDecl(name, true, Annotated(t), None);
      var c, o := CheckStmt(fn, s, scope, 0, 0), ExecStmt(x, s, store, tick, fuel);
      c.ok && o.kind.Normal? && (Agrees(fn.env, c.scope, o.store) <==> ZeroFits(t))
  {
    hide HasType, ZeroValue, ZeroFits, NoEmptyIntersection, Agrees;
    ZeroFitsIff(fn.env, t);
    var s := SDecl(name, true, Annotated(t), None);
    var c, o := CheckStmt(fn, s, scope, 0, 0), ExecStmt(x, s, store, tick, fuel);
    assert c.scope == scope[name := Binding(t, true)] && o.store == store[name := ZeroValue(t)];
    DeclaredAgreesIff(fn.env, scope, store, name, t, ZeroValue(t));
  }

  lemma DeclaredAgreesIff(env: Env, scope: Scope, store: Store, name: string, t: Type, v: Value)
    requires Agrees(env, scope, store) && name !in scope
    ensures Agrees(env, scope[name := Binding(t, true)], store[name := v]) <==> HasType(env, v, t)
  {
    hide HasType;
    assert scope[name := Binding(t, true)][name].ty == t && store[name := v][name] == v;
  }

  const NEVER := EBool(false)
  const UNRUN_FOR := SFor(NoStmt, Some(NEVER), NoStmt, [SDecl("z", true, Annotated(Prim("i32")), Some(EInt(1)))])
  const RETURN_Z := SReturn(Some(EVar("z")))

  function IntFn(): Fn {
    VoidFn().(ret := Present(Prim("i32")))
  }

  function Leaked(): Scope {
    map["z" := Binding(Prim("i32"), true)]
  }

  lemma UnrunForChecked()
    ensures CheckStmt(IntFn(), UNRUN_FOR, map[], 0, 0) == Checked(false, Leaked(), true)
  {
    var fn, d := IntFn(), UNRUN_FOR.body[0];
    assert TypeOfExpected(fn, EInt(1), map[], Prim("i32")) == Some(Prim("i32"));
    assert Accepts(fn, EInt(1), map[], Prim("i32"));
    assert CheckStmt(fn, d, map[], 1, 0) == Checked(false, Leaked(), true);
    assert UNRUN_FOR.body[1..] == [] && CheckBlock(fn, [], Leaked(), false, 1, 0) == Checked(false, Leaked(), true);
    assert CheckBlock(fn, UNRUN_FOR.body, map[], false, 1, 0) == Checked(false, Leaked(), true);
    assert TypeOf(fn, NEVER, map[]) == Some(BOOL);
  }

  lemma UnrunForRuns(x: Run)
    requires Quiet(x)
    ensures ExecStmt(x, UNRUN_FOR, map[], 0, 1) == Outcome(Normal, map[], 2)
  {
    hide ExecBlock;
    assert !Holds(x.ctx, NEVER, map[], 1);
    assert ExecMaybe(x, NoStmt, map[], 1, 1) == Outcome(Normal, map[], 1);
    assert ExecForLoop(x, UNRUN_FOR, map[], 1, 1) == Outcome(Normal, map[], 2);
  }

  /** A declaration in a `for` body outlives the loop, whether or not the body ran: the
      variable is in scope without a value, and returning it is accepted. */
  lemma ForLeaksDeclaration(x: Run)
    requires Quiet(x)
    ensures BodyAccepted(IntFn(), [UNRUN_FOR, RETURN_Z], map[])
    ensures var c, o := CheckStmt(IntFn(), UNRUN_FOR, map[], 0, 0), ExecStmt(x, UNRUN_FOR, map[], 0, 1);
      o.kind.Normal? && "z" in c.scope && "z" !in o.store
    ensures var k := ExecBlock(x, [UNRUN_FOR, RETURN_Z], map[], 0, 1).kind;
      k.Returned? && k.result.Some? && !HasType(IntFn().env, k.result.value, Prim("i32"))
  {
    hide UNRUN_FOR, HasType;
    var fn, body := IntFn(), [UNRUN_FOR, RETURN_Z];
    UnrunForChecked();
    UnrunForRuns(x);
    ReturnedVariable(x);
    assert body[1..] == [RETURN_Z] && [RETURN_Z][1..] == [];
    assert CheckBlock(fn, [], Leaked(), true, 0, 0) == Checked(true, Leaked(), true);
    assert CheckBlock(fn, [RETURN_Z], Leaked(), false, 0, 0) == Checked(true, Leaked(), true);
    assert CheckBlock(fn, body, map[], false, 0, 0) == Checked(true, Leaked(), true);
    assert StmtReturnsValue(RETURN_Z) && BodyReturnsValue([RETURN_Z]) && BodyReturnsValue(body);
    assert ExecBlock(x, body, map[], 0, 1) == ExecBlock(x, [RETURN_Z], map[], 2, 1);
    assert !HasType(fn.env, VNull, Prim("i32")) by { NullIsNoInt(fn.env); }
  }

  lemma NullIsNoInt(env: Env)
    ensures !HasType(env, VNull, Prim("i32"))
  {
  }

  lemma ReturnedVariable(x: Run)
    requires Quiet(x)
    ensures CheckStmt(IntFn(), RETURN_Z, Leaked(), 0, 0) == Checked(true, Leaked(), true)
    ensures ExecBlock(x, [RETURN_Z], map[], 2, 1).kind == Returned(Some(VNull))
  {
    EqualRefl(Prim("i32"));
    assert TypeOfExpected(IntFn(), EVar("z"), Leaked(), Prim("i32")) == Some(Prim("i32"));
    assert Accepts(IntFn(), EVar("z"), Leaked(), Prim("i32"));
    assert Eval(x.ctx, EVar("z"), map[], 2) == VNull;
    assert ExecStmt(x, RETURN_Z, map[], 2, 1).kind == Returned(Some(VNull));
  }

  const SHADOWING_TRY := STry([RAISE], Catch("x", []), NoBlock)

  /** A catch parameter may be a variable in scope: the error overwrites it, and after the
      `try` the checker still has the old type. */
  lemma CatchOverwrites(x: Run)
    requires Quiet(x)
    ensures Agrees(VoidFn().env, Params(), NullStore())
    ensures var c, o := CheckStmt(VoidFn(), SHADOWING_TRY, Params(), 0, 0), ExecStmt(x, SHADOWING_TRY, NullStore(), 0, 1);
      c.ok && o.kind.Normal? && !Agrees(VoidFn().env, c.scope, o.store)
  {
    hide Flatten, StripNull;
    MaybeStringArms();
    var fn, store := VoidFn(), NullStore();
    JumpChecked(RAISE, Params(), 0, 0);
    var inner := Params()["x" := Binding(NominalT(ClassKind, ERROR_CLASS), false)];
    assert CheckBlock(fn, [], inner, false, 0, 0) == Checked(false, inner, true);
    assert CheckTry(fn, SHADOWING_TRY, Params(), 0, 0) == Checked(false, Params(), true);
    ThrownAndCaught(x);
    ShadowingTryIsTry();
    assert !HasType(fn.env, VInstance(ERROR_CLASS), MAYBE_STRING);
    assert "x" in Params() && Params()["x"].ty == MAYBE_STRING;
  }

  lemma ShadowingTryIsTry()
    ensures CheckStmt(VoidFn(), SHADOWING_TRY, Params(), 0, 0) == CheckTry(VoidFn(), SHADOWING_TRY, Params(), 0, 0)
  {
    hide CheckTry;
  }

  lemma ThrownAndCaught(x: Run)
    requires Quiet(x)
    ensures var o := ExecStmt(x, SHADOWING_TRY, NullStore(), 0, 1);
      o.kind.Normal? && o.store == NullStore()["x" := VInstance(ERROR_CLASS)]
  {
    var store := NullStore();
    assert ExecStmt(x, RAISE, store, 1, 1) == Outcome(Threw, store, 2);
    assert ExecBlock(x, [RAISE], store, 1, 1) == Outcome(Threw, store, 2);
    var caught := store["x" := VInstance(ERROR_CLASS)];
    assert ExecBlock(x, [], caught, 2, 1) == Outcome(Normal, caught, 2);
    assert ExecTry(x, SHADOWING_TRY, store, 1, 1) == Outcome(Normal, caught, 2);
  }

  const BOTH_PRESENT := EBin(And, EBin(NeOp, EVar("x"), ENull), EBin(NeOp, EVar("y"), ENull))
  const RETURN_IF_BOTH := SIf(BOTH_PRESENT, [SReturn(None)], NoElse)

  /** What the checker believes after it: both variables are null. */
  function BothNull(): Scope {
    TestedNull()["y" := Binding(NULL_TYPE, true)]
  }

  lemma BothPresentFacts()
    ensures TrueFacts(BOTH_PRESENT) == [NullFact("x", true), NullFact("y", true)]
    ensures FalseFacts(BOTH_PRESENT) == [NullFact("x", false), NullFact("y", false)]
  {
    NullTestFacts("x");
    NullTestFacts("y");
  }

  lemma ConjunctionScope()
    ensures ApplyFacts(Params(), FalseFacts(BOTH_PRESENT)) == BothNull()
  {
    hide HasType, Flatten, StripNull, TrueFacts, FalseFacts;
    BothPresentFacts();
    var fs := [NullFact("x", false), NullFact("y", false)];
    assert fs[1..] == [NullFact("y", false)];
    assert ApplyFact(Params(), NullFact("x", false)) == TestedNull();
    ApplyOne(TestedNull(), NullFact("y", false));
  }

  lemma ConjunctionIsBool()
    ensures IsBool(VoidFn(), BOTH_PRESENT, Params())
  {
    hide Narrow, TypesEqual, IsAssignable, EqualityAllowed;
    NullTestFacts("x");
    ApplyOne(Params(), NullFact("x", true));
    NullTestIsBool("x", NeOp, Params());
    NullTestIsBool("y", NeOp, ApplyFacts(Params(), TrueFacts(BOTH_PRESENT.left)));
  }

  lemma ConjunctionChecked()
    ensures CheckStmt(VoidFn(), RETURN_IF_BOTH, Params(), 0, 0) == Checked(false, BothNull(), true)
  {
    hide IsBool, TypeOf, TrueFacts, FalseFacts, ApplyFacts, CheckBlock, BothNull, BOTH_PRESENT, Params;
    var fn, inner := VoidFn(), ApplyFacts(Params(), TrueFacts(BOTH_PRESENT));
    ConjunctionScope();
    ConjunctionIsBool();
    ReturnChecked(inner);
    assert CheckAlternate(fn, NoElse, BothNull(), 0, 0) == Checked(false, BothNull(), true);
  }

  lemma ReturnChecked(scope: Scope)
    ensures CheckBlock(VoidFn(), [SReturn(None)], scope, false, 0, 0) == Checked(true, scope, true)
  {
    var fn := VoidFn();
    assert [SReturn(None)][1..] == [];
    assert CheckStmt(fn, SReturn(None), scope, 0, 0) == Checked(true, scope, true);
    assert CheckBlock(fn, [], scope, true, 0, 0) == Checked(true, scope, true);
  }

  function OneNull(): Store {
    map["x" := VString("a"), "y" := VNull]
  }

  lemma ConjunctionNotTaken(x: Run)
    requires Quiet(x)
    ensures ExecStmt(x, RETURN_IF_BOTH, OneNull(), 0, 1) == Outcome(Normal, OneNull(), 1)
  {
    hide HasType;
    var right := BOTH_PRESENT.right;
    assert Eval(x.ctx, right.left, OneNull(), 0) == VNull;
    assert Eval(x.ctx, right, OneNull(), 0) == VBool(false);
    assert !Holds(x.ctx, BOTH_PRESENT, OneNull(), 0);
  }

  lemma OneNullFits()
    ensures Agrees(VoidFn().env, Params(), OneNull()) && !Agrees(VoidFn().env, BothNull(), OneNull())
  {
    hide Flatten, StripNull;
    MaybeStringArms();
    assert !HasType(VoidFn().env, VString("a"), NULL_TYPE);
    assert "x" in BothNull() && BothNull()["x"].ty == NULL_TYPE;
  }

  /** The false facts of a conjunction flow on after the `if`: with only `y` null the
      branch is not taken, yet `x` is taken to be null. */
  lemma ConjunctionNarrowsTooFar(x: Run)
    requires Quiet(x)
    ensures Agrees(VoidFn().env, Params(), OneNull())
    ensures var c, o := CheckStmt(VoidFn(), RETURN_IF_BOTH, Params(), 0, 0), ExecStmt(x, RETURN_IF_BOTH, OneNull(), 0, 1);
      c.ok && o.kind.Normal? && !Agrees(VoidFn().env, c.scope, o.store)
  {
    hide CheckStmt, ExecStmt, Agrees, Params, OneNull, BothNull;
    ConjunctionChecked();
    ConjunctionNotTaken(x);
    OneNullFits();
  }

  const IS_STRING := EBin(EqOp, ETypeof(EVar("x")), EStr("string"))
  const RETURN_IF_STRING := SIf(IS_STRING, [SReturn(None)], NoElse)

  lemma StringTestFacts()
    ensures TrueFacts(IS_STRING) == [TypeofFact("x", "string", true)]
    ensures FalseFacts(IS_STRING) == [TypeofFact("x", "string", false)]
  {
    assert InvertFacts([TypeofFact("x", "string", true)]) == [TypeofFact("x", "string", false)];
  }

  lemma NotStringIsNull()
    ensures NarrowByTypeof(MAYBE_STRING, "string", false) == NULL_TYPE
  {
    hide HasType, StripNull, Flatten, MakeUnion;
    MaybeStringArms();
    var p := (arm: Type) => (TypeofTag(arm) == Some("string")) == false;
    var arms := [STRING, NULL_TYPE];
    assert arms[1..] == [NULL_TYPE] && [NULL_TYPE][1..] == [];
    assert Keep([NULL_TYPE], p) == [NULL_TYPE] + Keep([], p) == [NULL_TYPE];
    assert Keep(arms, p) == [NULL_TYPE];
    MadeOfOne(NULL_TYPE);
  }

  lemma StringTestChecked()
    ensures CheckStmt(VoidFn(), RETURN_IF_STRING, Params(), 0, 0) == Checked(false, TestedNull(), true)
  {
    hide IsBool, TypeOf, TrueFacts, FalseFacts, CheckBlock, Flatten, MakeUnion, Keep, NarrowByTypeof;
    StringTestFacts();
    NotStringIsNull();
    StringTestIsBool();
    var inner, fs := ApplyFacts(Params(), TrueFacts(IS_STRING)), FalseFacts(IS_STRING);
    ReturnChecked(inner);
    ApplyOne(Params(), fs[0]);
    assert Params()["x"].ty == MAYBE_STRING && ApplyFact(Params(), fs[0]) == TestedNull();
    assert CheckAlternate(VoidFn(), NoElse, TestedNull(), 0, 0) == Checked(false, TestedNull(), true);
  }

  lemma StringTestIsBool()
    ensures IsBool(VoidFn(), IS_STRING, Params())
  {
    hide Flatten, IsAssignable;
    EqualRefl(STRING);
    assert TypeOf(VoidFn(), EVar("x"), Params()) == Some(MAYBE_STRING);
    assert TypeOf(VoidFn(), ETypeof(EVar("x")), Params()) == Some(STRING);
  }

  /** `string | null` is stored as a pointer without a tag, and `typeof` reports "object"
      for a string there: the test for "string" fails, and the checker takes the variable
      to be null from there on. */
  lemma TypeofMissesString(x: Run)
    requires Quiet(x) && "x" in x.ctx.locals && x.ctx.locals["x"] == MAYBE_STRING
    ensures Agrees(VoidFn().env, Params(), OneNull())
    ensures var c, o := CheckStmt(VoidFn(), RETURN_IF_STRING, Params(), 0, 0), ExecStmt(x, RETURN_IF_STRING, OneNull(), 0, 1);
      c.ok && o.kind.Normal? && !Agrees(VoidFn().env, c.scope, o.store)
  {
    hide CheckStmt, ExecStmt, Agrees, Params, OneNull, TestedNull;
    StringTestChecked();
    StringTestFails(x);
    OneNullFits();
    StringIsNotNull();
  }

  lemma StringIsNotNull()
    ensures !Agrees(VoidFn().env, TestedNull(), OneNull())
  {
    assert "x" in TestedNull() && TestedNull()["x"].ty == NULL_TYPE && !HasType(VoidFn().env, VString("a"), NULL_TYPE);
  }

  lemma StringTestFails(x: Run)
    requires Quiet(x) && "x" in x.ctx.locals && x.ctx.locals["x"] == MAYBE_STRING
    ensures ExecStmt(x, RETURN_IF_STRING, OneNull(), 0, 1) == Outcome(Normal, OneNull(), 1)
  {
    hide NullablePointer, ExecBlock;
    MaybeStringIsPointer();
    assert Eval(x.ctx, EVar("x"), OneNull(), 0) == VString("a");
    assert Eval(x.ctx, ETypeof(EVar("x")), OneNull(), 0) == VString("object");
    assert "object"[0] != "string"[0];
    assert Eval(x.ctx, EStr("string"), OneNull(), 0) == VString("string") != VString("object");
    assert Eval(x.ctx, IS_STRING, OneNull(), 0) == VBool(false);
  }

  lemma MaybeStringIsPointer()
    ensures NullablePointer(MAYBE_STRING)
  {
    hide HasType, StripNull, Flatten;
    MaybeStringArms();
    assert [STRING, NULL_TYPE][0] == STRING && [STRING, NULL_TYPE][1] == NULL_TYPE;
  }
}
